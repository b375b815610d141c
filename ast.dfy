/**
 * The clang cursor as the analysis sees it: kind, spelling, location,
 * the chain of semantic-parent kinds, the definition a reference resolves
 * to, and the children; `Preorder` is the visiting order of `cc.Walk`.
 */
module Ast {
  import opened Outcome
  import opened ProgInfo

  /** The cursor kinds the analysis distinguishes; every other kind is `OtherKind`. */
  datatype Kind =
    | VarDecl | FunctionDecl | CompoundStmt | DeclRefExpr | TranslationUnit
    | UnexposedDecl | Namespace | StructDecl | ClassTemplate
    | ClassTemplatePartialSpecialization | ClassDecl | EnumDecl
    | FunctionTemplate | Constructor | CXXMethod
    | OtherKind(spelling: string)

  /**
   * The cursor `Definition()` returns: its location and the kinds of its
   * semantic parents, nearest first.
   */
  datatype Decl = Decl(loc: Location, parents: seq<Kind>)

  /**
   * An AST node. `parents` lists the kinds of the node's semantic parents,
   * nearest first; `definition` is `None` where clang finds no definition.
   */
  datatype Node = Node(
    kind: Kind,
    spelling: string,
    loc: Location,
    parents: seq<Kind>,
    definition: Option<Decl>,
    children: seq<Node>)

  /** The location of a definition cursor; the null cursor has the zero location. */
  function DefLoc(d: Option<Decl>): Location
  {
    match d
    case None => Zero
    case Some(decl) => decl.loc
  }

  /** `cc.Walk` visits the node, then each child's subtree in order. */
  function Preorder(n: Node): seq<Node>
    decreases n, 1
  {
    [n] + PreorderAll(n.children)
  }

  function PreorderAll(ns: seq<Node>): seq<Node>
    decreases ns, 0
  {
    if ns == [] then [] else Preorder(ns[0]) + PreorderAll(ns[1..])
  }

  /** Structural definition: the subtree rooted at `n` holds a node of kind `k`. */
  predicate HasKind(n: Node, k: Kind)
    decreases n, 1
  {
    n.kind == k || AnyHasKind(n.children, k)
  }

  predicate AnyHasKind(ns: seq<Node>, k: Kind)
    decreases ns, 0
  {
    ns != [] && (HasKind(ns[0], k) || AnyHasKind(ns[1..], k))
  }

  /** Walking the subtree meets a node of kind `k` exactly when the subtree holds one. */
  lemma {:induction false} PreorderHasKind(n: Node, k: Kind)
    ensures (exists m :: m in Preorder(n) && m.kind == k) <==> HasKind(n, k)
    decreases n, 1
  {
    PreorderAllHasKind(n.children, k);
  }

  lemma {:induction false} PreorderAllHasKind(ns: seq<Node>, k: Kind)
    ensures (exists m :: m in PreorderAll(ns) && m.kind == k) <==> AnyHasKind(ns, k)
    decreases ns, 0
  {
    if ns != [] {
      PreorderHasKind(ns[0], k);
      PreorderAllHasKind(ns[1..], k);
    }
  }
}
