/** The records the analysis writes and the graph builder reads. */
module ProgInfo {
  /** A source coordinate (`cc.Location`). */
  datatype Location = Location(file: string, line: int, col: int)

  /** The zero location `cc.Location{}`: on a definition it means "external". */
  const Zero := Location("", 0, 0)

  /** One use of an identifier inside a function body. */
  datatype Use = Use(name: string, useLoc: Location, defLoc: Location)

  /** The uses recorded for one function definition. */
  datatype FuncUse = FuncUse(funcName: string, funcLoc: Location, uses: seq<Use>)
}
