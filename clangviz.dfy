/**
 * clangviz: the file-interaction graph drawn from the analysis records.
 * Each use of an identifier inside a function adds an edge from the file
 * of the function to the file of the identifier's definition; the edges
 * are de-duplicated, ordered, and written in the DOT language.
 */
module Clangviz {
  import opened Outcome
  import opened Strings
  import opened Paths
  import opened ProgInfo
  import opened GoQuote

  /** A file-interaction edge: a function in `from` uses something defined in `to`. */
  datatype Edge = Edge(from: string, to: string)

  /** The panic of genFileInteractionGraph: a drawn use without a definition location. */
  datatype Fatal = BuiltinIdentifier(use: Use)

  /*
   * Which uses are drawn
   */

  /** Definitions in the system headers or in the compiler's own headers are not drawn. */
  predicate StandardInclude(u: Use) {
    HasPrefix(u.defLoc.file, "/usr/include/") || HasSubstring(u.defLoc.file, "/lib64/gcc/")
  }

  /** Compiler builtins are not drawn. */
  predicate BuiltinName(u: Use) {
    HasPrefix(u.name, "__builtin_") || HasPrefix(u.name, "__sync_")
  }

  predicate Skipped(u: Use) {
    StandardInclude(u) || BuiltinName(u)
  }

  /** A use that would be drawn but has no definition location: the graph cannot be built. */
  predicate Unresolved(u: Use) {
    !Skipped(u) && u.defLoc == Zero
  }

  /** The graph node of a file: its short name inside the main `Source/` tree, its full path elsewhere. */
  function NodeName(path: string): (name: string)
    ensures !HasPrefix(path, "Source/") ==> name == path
    ensures HasPrefix(path, "Source/") ==> '/' !in name && name + Ext(Base(path)) == Base(path)
  {
    if HasPrefix(path, "Source/") then
      assert path[..7][0] == 'S';
      FileNameHasNoSlash(path);
      FileName(path)
    else path
  }

  /** The edge a drawn use adds for a function in the file `from`. */
  function UseEdge(from: string, u: Use): Edge {
    Edge(from, NodeName(u.defLoc.file))
  }

  /*
   * The edge set: a reference definition and the fold the loops follow
   */

  /** The edges the drawn uses of `uses` add for a function in `from`. */
  function UseEdges(from: string, uses: seq<Use>): set<Edge> {
    set u | u in uses && !Skipped(u) :: UseEdge(from, u)
  }

  /** Every edge of the graph: one per drawn use of every record, duplicates merged. */
  function EdgesOf(fus: seq<FuncUse>): set<Edge> {
    set fu, u | fu in fus && u in fu.uses && !Skipped(u) :: UseEdge(NodeName(fu.funcLoc.file), u)
  }

  /** What the inner loop does with one use of a function in `from`: skip it, panic, or draw an edge. */
  function Draw(from: string, u: Use): (r: Result<Option<Edge>, Fatal>)
    ensures r == Ok(None) <==> Skipped(u)
    ensures r.Fail? <==> Unresolved(u)
    ensures r.Fail? ==> r.error == BuiltinIdentifier(u)
    ensures r.Ok? && r.value.Some? ==> u.defLoc != Zero && r.value.value == Edge(from, NodeName(u.defLoc.file))
  {
    if Skipped(u) then Ok(None)
    else if u.defLoc == Zero then Fail(BuiltinIdentifier(u))
    else Ok(Some(UseEdge(from, u)))
  }

  function DrawFrom(from: string): Use -> Result<Option<Edge>, Fatal> {
    (u: Use) => Draw(from, u)
  }

  /** `es` with the edges `step` yields for `xs`, in order, up to the first failure. */
  function AddAll<T>(es: set<Edge>, xs: seq<T>, step: T -> Result<Option<Edge>, Fatal>): Result<set<Edge>, Fatal>
    decreases |xs|
  {
    if xs == [] then Ok(es)
    else
      var acc :- AddAll(es, xs[..|xs| - 1], step);
      match step(xs[|xs| - 1])
      case Fail(e) => Fail(e)
      case Ok(None) => Ok(acc)
      case Ok(Some(edge)) => Ok(acc + {edge})
  }

  lemma {:induction false} AddAllFailurePersists<T>(es: set<Edge>, xs: seq<T>, k: nat, step: T -> Result<Option<Edge>, Fatal>)
    requires k <= |xs| && AddAll(es, xs[..k], step).Fail?
    ensures AddAll(es, xs, step) == AddAll(es, xs[..k], step)
    decreases |xs| - k
  {
    if k < |xs| {
      assert xs[..k + 1][..k] == xs[..k];
      AddAllFailurePersists(es, xs, k + 1, step);
    } else {
      assert xs[..k] == xs;
    }
  }

  /** The edges `step` yields for the elements of `xs`, when it fails on none. */
  function Yielded<T(==)>(xs: seq<T>, step: T -> Result<Option<Edge>, Fatal>): set<Edge> {
    set x | x in xs && step(x).Ok? && step(x).value.Some? :: step(x).value.value
  }

  lemma {:induction false} AddAllEdges<T>(es: set<Edge>, xs: seq<T>, step: T -> Result<Option<Edge>, Fatal>)
    ensures AddAll(es, xs, step).Ok? <==> forall x :: x in xs ==> step(x).Ok?
    ensures AddAll(es, xs, step).Ok? ==> AddAll(es, xs, step).value == es + Yielded(xs, step)
    ensures AddAll(es, xs, step).Fail? ==> exists x :: x in xs && step(x) == Fail(AddAll(es, xs, step).error)
    decreases |xs|
  {
    if xs != [] {
      var prefix := xs[..|xs| - 1];
      var x := xs[|xs| - 1];
      AddAllEdges(es, prefix, step);
      assert xs == prefix + [x];
      assert forall y :: y in xs <==> y in prefix || y == x;
      if AddAll(es, prefix, step).Ok? && step(x).Ok? {
        assert Yielded(xs, step) == Yielded(prefix, step) + if step(x).value.Some? then {step(x).value.value} else {};
      }
    }
  }

  /** The inner loop: the uses of one record added to `es`, in order, up to the first unresolved one. */
  function AddUses(es: set<Edge>, from: string, uses: seq<Use>): Result<set<Edge>, Fatal> {
    AddAll(es, uses, DrawFrom(from))
  }

  /** The outer loop: every record's uses, in order, up to the first unresolved one. */
  function Collect(fus: seq<FuncUse>): Result<set<Edge>, Fatal>
    decreases |fus|
  {
    if fus == [] then Ok({})
    else
      var es :- Collect(fus[..|fus| - 1]);
      var fu := fus[|fus| - 1];
      AddUses(es, NodeName(fu.funcLoc.file), fu.uses)
  }

  lemma {:induction false} CollectFailurePersists(fus: seq<FuncUse>, k: nat)
    requires k <= |fus| && Collect(fus[..k]).Fail?
    ensures Collect(fus) == Collect(fus[..k])
    decreases |fus| - k
  {
    if k < |fus| {
      assert fus[..k + 1][..k] == fus[..k];
      CollectFailurePersists(fus, k + 1);
    } else {
      assert fus[..k] == fus;
    }
  }

  /**
   * The inner loop fails exactly on an unresolved use, naming one of the
   * record's uses, and otherwise adds the record's edges.
   */
  lemma AddUsesEdges(es: set<Edge>, from: string, uses: seq<Use>)
    ensures AddUses(es, from, uses).Ok? <==> forall u :: u in uses ==> !Unresolved(u)
    ensures AddUses(es, from, uses).Ok? ==> AddUses(es, from, uses).value == es + UseEdges(from, uses)
    ensures AddUses(es, from, uses).Fail? ==>
      AddUses(es, from, uses).error.use in uses && Unresolved(AddUses(es, from, uses).error.use)
  {
    var step := DrawFrom(from);
    AddAllEdges(es, uses, step);
    assert forall u :: step(u) == Draw(from, u);
    if AddUses(es, from, uses).Ok? {
      assert Yielded(uses, step) == UseEdges(from, uses);
    }
  }

  /** The edges of `fus` with one more record. */
  lemma EdgesOfSnoc(fus: seq<FuncUse>, fu: FuncUse)
    ensures EdgesOf(fus + [fu]) == EdgesOf(fus) + UseEdges(NodeName(fu.funcLoc.file), fu.uses)
  {
    assert forall g :: g in fus + [fu] <==> g in fus || g == fu;
  }

  /**
   * The graph's edges: building fails exactly when some record holds an
   * unresolved use, and that use is named; otherwise the edges are those of
   * the reference definition.
   */
  lemma {:induction false} CollectEdges(fus: seq<FuncUse>)
    ensures Collect(fus).Ok? <==> forall fu, u :: fu in fus && u in fu.uses ==> !Unresolved(u)
    ensures Collect(fus).Ok? ==> Collect(fus).value == EdgesOf(fus)
    ensures Collect(fus).Fail? ==>
      Unresolved(Collect(fus).error.use) && exists fu :: fu in fus && Collect(fus).error.use in fu.uses
    decreases |fus|
  {
    if fus != [] {
      var prefix := fus[..|fus| - 1];
      var fu := fus[|fus| - 1];
      CollectEdges(prefix);
      assert fus == prefix + [fu];
      assert forall g :: g in fus <==> g in prefix || g == fu;
      if Collect(prefix).Ok? {
        AddUsesEdges(Collect(prefix).value, NodeName(fu.funcLoc.file), fu.uses);
        EdgesOfSnoc(prefix, fu);
      }
    }
  }

  /*
   * The order of the output
   */

  /** The comparison given to sort.Slice: `from` descending, then `to` ascending. */
  predicate Before(x: Edge, y: Edge) {
    Less(y.from, x.from) || (x.from == y.from && Less(x.to, y.to))
  }

  lemma BeforeIrreflexive(x: Edge)
    ensures !Before(x, x)
  {
    LessIrreflexive(x.from);
    LessIrreflexive(x.to);
  }

  lemma BeforeTransitive(x: Edge, y: Edge, z: Edge)
    requires Before(x, y) && Before(y, z)
    ensures Before(x, z)
  {
    if Less(y.from, x.from) && Less(z.from, y.from) {
      LessTransitive(z.from, y.from, x.from);
    } else if x.from == y.from && y.from == z.from {
      LessTransitive(x.to, y.to, z.to);
    }
  }

  /** Distinct edges are always ordered one way or the other: the order is total. */
  lemma BeforeTotal(x: Edge, y: Edge)
    ensures x == y || Before(x, y) || Before(y, x)
  {
    LessTotal(x.from, y.from);
    LessTotal(x.to, y.to);
  }

  lemma BeforeAsymmetric(x: Edge, y: Edge)
    requires Before(x, y)
    ensures !Before(y, x)
  {
    if Before(y, x) {
      BeforeTransitive(x, y, x);
      BeforeIrreflexive(x);
    }
  }

  predicate StrictlySorted(s: seq<Edge>) {
    forall i, j :: 0 <= i < j < |s| ==> Before(s[i], s[j])
  }

  predicate Distinct(s: seq<Edge>) {
    forall i, j :: 0 <= i < j < |s| ==> s[i] != s[j]
  }

  /** `e` placed among the sorted, distinct edges `s`. */
  function Insert(e: Edge, s: seq<Edge>): (r: seq<Edge>)
    requires StrictlySorted(s) && e !in s
    ensures StrictlySorted(r) && |r| == |s| + 1
    ensures forall x :: x in r <==> x == e || x in s
    decreases |s|
  {
    if s == [] then [e]
    else if Before(e, s[0]) then
      InsertFront(e, s);
      [e] + s
    else
      BeforeTotal(e, s[0]);
      var t := Insert(e, s[1..]);
      assert forall x :: x in s <==> x == s[0] || x in s[1..];
      InsertBehind(e, s, t);
      [s[0]] + t
  }

  lemma InsertBehind(e: Edge, s: seq<Edge>, t: seq<Edge>)
    requires StrictlySorted(s) && s != [] && Before(s[0], e)
    requires StrictlySorted(t) && forall x :: x in t ==> x == e || x in s[1..]
    ensures StrictlySorted([s[0]] + t)
  {
    forall j | 0 <= j < |t|
      ensures Before(s[0], t[j])
    {
      assert t[j] in t;
      if t[j] != e {
        assert t[j] in s[1..];
        var k :| 0 <= k < |s| - 1 && s[1..][k] == t[j];
        assert s[k + 1] == t[j];
      }
    }
  }

  lemma InsertFront(e: Edge, s: seq<Edge>)
    requires StrictlySorted(s) && s != [] && Before(e, s[0])
    ensures StrictlySorted([e] + s)
  {
    forall j | 0 < j < |s|
      ensures Before(e, s[j])
    {
      BeforeTransitive(e, s[0], s[j]);
    }
  }

  /** sort.Slice with Before, on distinct edges: an insertion sort. */
  function SortEdges(s: seq<Edge>): (r: seq<Edge>)
    requires Distinct(s)
    ensures StrictlySorted(r) && |r| == |s|
    ensures forall x :: x in r <==> x in s
    decreases |s|
  {
    if s == [] then []
    else
      var rest := SortEdges(s[1..]);
      assert s[0] !in s[1..];
      Insert(s[0], rest)
  }

  /** `e` comes before every other edge of `es`. */
  ghost predicate IsLeast(e: Edge, es: set<Edge>) {
    e in es && forall x :: x in es && x != e ==> Before(e, x)
  }

  /** A non-empty set of edges has a least element under Before. */
  lemma {:induction false} LeastExists(es: set<Edge>)
    requires es != {}
    ensures exists e :: IsLeast(e, es)
    decreases |es|
  {
    var y :| y in es;
    if es == {y} {
      assert IsLeast(y, es);
    } else {
      var rest := es - {y};
      LeastExists(rest);
      var m :| IsLeast(m, rest);
      LeastOfMore(rest, m, y);
      assert es == rest + {y};
    }
  }

  /** The least of `rest` and `y` is one of the two. */
  lemma LeastOfMore(rest: set<Edge>, m: Edge, y: Edge)
    requires IsLeast(m, rest) && y !in rest
    ensures IsLeast(y, rest + {y}) || IsLeast(m, rest + {y})
  {
    BeforeTotal(m, y);
    if Before(y, m) {
      forall x | x in rest && x != m
        ensures Before(y, x)
      {
        BeforeTransitive(y, m, x);
      }
      assert IsLeast(y, rest + {y});
    } else {
      assert IsLeast(m, rest + {y});
    }
  }

  /** The least edge followed by the others in order is the whole set in order. */
  lemma PrependLeast(e: Edge, es: set<Edge>, t: seq<Edge>)
    requires IsLeast(e, es) && StrictlySorted(t)
    requires forall x :: x in t <==> x in es - {e}
    ensures StrictlySorted([e] + t)
    ensures forall x :: x in [e] + t <==> x in es
  {
    forall j | 0 <= j < |t|
      ensures Before(e, t[j])
    {
      assert t[j] in t;
    }
  }

  /** The edges of `es` in the order of the output. */
  ghost function Ordered(es: set<Edge>): (r: seq<Edge>)
    ensures StrictlySorted(r) && |r| == |es|
    ensures forall e :: e in r <==> e in es
    decreases |es|
  {
    if es == {} then []
    else
      LeastExists(es);
      var e :| IsLeast(e, es);
      var t := Ordered(es - {e});
      PrependLeast(e, es, t);
      [e] + t
  }

  /** Sorting leaves no choice: the strictly sorted sequence of a set of edges is unique. */
  lemma {:induction false} StrictlySortedUnique(a: seq<Edge>, b: seq<Edge>)
    requires StrictlySorted(a) && StrictlySorted(b)
    requires forall x :: x in a <==> x in b
    ensures a == b
    decreases |a|
  {
    assert a != [] ==> a[0] in b;
    assert b != [] ==> b[0] in a;
    if a != [] && b != [] {
      assert a[0] == b[0] by {
        if a[0] != b[0] {
          assert a[0] in b;
          var i :| 0 <= i < |b| && b[i] == a[0];
          assert b[0] in a;
          var j :| 0 <= j < |a| && a[j] == b[0];
          assert Before(b[0], a[0]) && Before(a[0], b[0]);
          BeforeAsymmetric(b[0], a[0]);
        }
      }
      TailElements(a, b);
      TailElements(b, a);
      StrictlySortedUnique(a[1..], b[1..]);
      assert a == [a[0]] + a[1..] && b == [b[0]] + b[1..];
    }
  }

  /** With the same first element and the same elements, two strictly sorted sequences have tails with the same elements. */
  lemma TailElements(a: seq<Edge>, b: seq<Edge>)
    requires StrictlySorted(a) && StrictlySorted(b) && a != [] && b != [] && a[0] == b[0]
    requires forall x :: x in a <==> x in b
    ensures forall x :: x in a[1..] ==> x in b[1..]
  {
    forall x | x in a[1..]
      ensures x in b[1..]
    {
      var i :| 1 <= i < |a| && a[i] == x;
      BeforeIrreflexive(a[0]);
      assert x in b;
      var j :| 0 <= j < |b| && b[j] == x;
      assert j != 0;
      assert b[1..][j - 1] == x;
    }
  }

  /*
   * The text of the graph
   */

  /** One edge as a DOT statement on its own line, both names quoted as `%q` does. */
  function EdgeLine(e: Edge): string {
    "\t" + Quote(e.from) + " -> " + Quote(e.to) + "\n"
  }

  function Lines(edges: seq<Edge>): string
    decreases |edges|
  {
    if edges == [] then "" else Lines(edges[..|edges| - 1]) + EdgeLine(edges[|edges| - 1])
  }

  const Header := "digraph {\n"
  const Footer := "}\n"

  function Render(edges: seq<Edge>): string {
    Header + Lines(edges) + Footer
  }

  /** What genFileInteractionGraph yields for `fus`: its panic, or the graph of its edges in order. */
  ghost function Graph(fus: seq<FuncUse>): Result<string, Fatal> {
    match Collect(fus)
    case Fail(e) => Fail(e)
    case Ok(es) => Ok(Render(Ordered(es)))
  }

  /** Every edge statement is exactly one line. */
  lemma EdgeLineNewlines(e: Edge)
    ensures multiset(EdgeLine(e))['\n'] == 1
  {
    EscapeSingleLine(e.from);
    EscapeSingleLine(e.to);
  }

  /** The graph has one line per edge besides its opening and closing lines. */
  lemma {:induction false} RenderNewlines(edges: seq<Edge>)
    ensures multiset(Render(edges))['\n'] == |edges| + 2
  {
    LinesNewlines(edges);
    HeaderFooterNewlines();
    NewlinesOfParts(Header, Lines(edges), Footer);
  }

  lemma HeaderFooterNewlines()
    ensures multiset(Header)['\n'] == 1 && multiset(Footer)['\n'] == 1
  {
    assert Header[..9] == "digraph {";
    EndsLine(Header);
    EndsLine(Footer);
  }

  /** Multiset algebra, stated over plain variables so that the literal header and footer stay folded. */
  lemma NewlinesOfParts(a: string, b: string, c: string)
    ensures multiset(a + b + c)['\n'] == multiset(a)['\n'] + multiset(b)['\n'] + multiset(c)['\n']
  {
  }

  /** A string whose only newline is its last character. */
  lemma EndsLine(s: string)
    requires s != [] && s[|s| - 1] == '\n' && '\n' !in s[..|s| - 1]
    ensures multiset(s)['\n'] == 1
  {
    assert s == s[..|s| - 1] + ['\n'];
  }

  lemma {:induction false} LinesNewlines(edges: seq<Edge>)
    ensures multiset(Lines(edges))['\n'] == |edges|
    decreases |edges|
  {
    if edges != [] {
      LinesNewlines(edges[..|edges| - 1]);
      EdgeLineNewlines(edges[|edges| - 1]);
    }
  }

  /*
   * Properties of the graph
   */

  /**
   * The graph is built exactly when no drawn use lacks a definition
   * location; it then lists every edge of the reference definition once, in
   * the sort order; otherwise the panic names such a use.
   */
  lemma GraphEdges(fus: seq<FuncUse>)
    ensures Graph(fus).Ok? <==> forall fu, u :: fu in fus && u in fu.uses ==> !Unresolved(u)
    ensures Graph(fus).Ok? ==> Graph(fus).value == Render(Ordered(EdgesOf(fus)))
    ensures Graph(fus).Fail? ==>
      Unresolved(Graph(fus).error.use) && exists fu :: fu in fus && Graph(fus).error.use in fu.uses
  {
    CollectEdges(fus);
  }

  /**
   * Neither the order of the records nor repeated records change the graph:
   * only which records there are matters.
   */
  lemma GraphOrderIndependent(fus: seq<FuncUse>, gus: seq<FuncUse>)
    requires forall fu :: fu in fus <==> fu in gus
    ensures Graph(fus).Ok? <==> Graph(gus).Ok?
    ensures Graph(fus).Ok? ==> Graph(fus) == Graph(gus)
  {
    CollectEdges(fus);
    CollectEdges(gus);
    assert EdgesOf(fus) == EdgesOf(gus);
  }

  /** A record whose every use is a builtin or a standard include changes nothing, not even the failure. */
  lemma SkippedRecordIgnored(fus: seq<FuncUse>, fu: FuncUse)
    requires forall u :: u in fu.uses ==> Skipped(u)
    ensures Graph(fus + [fu]) == Graph(fus)
  {
    assert (fus + [fu])[..|fus|] == fus;
    if Collect(fus).Ok? {
      AddUsesEdges(Collect(fus).value, NodeName(fu.funcLoc.file), fu.uses);
      assert UseEdges(NodeName(fu.funcLoc.file), fu.uses) == {};
    }
  }

  /** Inside the main `Source/` tree a file is drawn under its name without directory or extension. */
  lemma NodeNameOfSourceFile(dir: string, name: string, ext: string)
    requires dir == "Source" || HasPrefix(dir, "Source/")
    requires name != "" && '/' !in name && '.' !in name && IsExtension(ext)
    ensures NodeName(dir + "/" + name + ext) == name
  {
    var path := dir + "/" + name + ext;
    assert HasPrefix(path, "Source/") by {
      if dir == "Source" {
        assert path[..7] == dir + "/";
      } else {
        assert path[..7] == dir[..7];
      }
    }
    FileNameOfFile(dir, name, ext);
  }

  /**
   * The records of an example: one function of `xFile` using a function of
   * `yFile`, a global of its own file, a standard-library function and a
   * compiler builtin.
   */
  function Example(xFile: string, yFile: string): seq<FuncUse> {
    [FuncUse("main", Location(xFile, 3, 1), [
      Use("helper", Location(xFile, 4, 3), Location(yFile, 1, 6)),
      Use("count", Location(xFile, 5, 3), Location(xFile, 1, 5)),
      Use("printf", Location(xFile, 6, 3), Location("/usr/include/stdio.h", 332, 12)),
      Use("__builtin_expect", Location(xFile, 7, 7), Zero)])]
  }

  /** A file outside the system and compiler include directories. */
  predicate Drawable(file: string) {
    !HasPrefix(file, "/usr/include/") && !HasSubstring(file, "/lib64/gcc/")
  }

  /** What the inner loop does with each of the example's uses. */
  lemma ExampleSteps(xFile: string, yFile: string)
    requires Drawable(xFile) && Drawable(yFile)
    ensures var x, y, uses := NodeName(xFile), NodeName(yFile), Example(xFile, yFile)[0].uses;
      && DrawFrom(x)(uses[0]) == Ok(Some(Edge(x, y)))
      && DrawFrom(x)(uses[1]) == Ok(Some(Edge(x, x)))
      && DrawFrom(x)(uses[2]) == Ok(None)
      && DrawFrom(x)(uses[3]) == Ok(None)
  {
    var x, uses := NodeName(xFile), Example(xFile, yFile)[0].uses;
    assert !Skipped(uses[0]) && uses[0].defLoc != Zero;
    assert !Skipped(uses[1]) && uses[1].defLoc != Zero;
    assert StandardInclude(uses[2]);
    assert BuiltinName(uses[3]);
  }

  /**
   * The example's edges: the uses of the function of `yFile` and of the global
   * of `xFile` are drawn, the standard-library function and the builtin are not.
   */
  lemma ExampleEdges(xFile: string, yFile: string)
    requires Drawable(xFile) && Drawable(yFile)
    ensures var x, y := NodeName(xFile), NodeName(yFile);
      Collect(Example(xFile, yFile)) == Ok({Edge(x, x), Edge(x, y)})
  {
    var x, y := NodeName(xFile), NodeName(yFile);
    var fus := Example(xFile, yFile);
    var fu := fus[0];
    var step := DrawFrom(x);
    ExampleSteps(xFile, yFile);
    assert forall u :: u in fu.uses ==> u == fu.uses[0] || u == fu.uses[1] || u == fu.uses[2] || u == fu.uses[3];
    assert forall u :: u in fu.uses ==> step(u).Ok?;
    AddAllEdges({}, fu.uses, step);
    assert AddAll({}, fu.uses, step).Ok?;
    assert Yielded(fu.uses, step) == {Edge(x, x), Edge(x, y)};
    assert AddUses({}, x, fu.uses) == AddAll({}, fu.uses, step);
    assert AddAll({}, fu.uses, step).value == {Edge(x, x), Edge(x, y)};
    assert fus[..0] == [] && fus[0] == fu;
    assert Collect(fus) == AddUses({}, NodeName(fu.funcLoc.file), fu.uses);
  }

  /**
   * The example's graph: a self-edge and an edge to the other file, in the
   * order of the names; one edge only when both files have the same name.
   */
  lemma ExampleGraph(xFile: string, yFile: string)
    requires Drawable(xFile) && Drawable(yFile)
    ensures var x, y := NodeName(xFile), NodeName(yFile);
      && (Less(x, y) ==> Graph(Example(xFile, yFile)) == Ok(Header + EdgeLine(Edge(x, x)) + EdgeLine(Edge(x, y)) + Footer))
      && (Less(y, x) ==> Graph(Example(xFile, yFile)) == Ok(Header + EdgeLine(Edge(x, y)) + EdgeLine(Edge(x, x)) + Footer))
      && (x == y ==> Graph(Example(xFile, yFile)) == Ok(Header + EdgeLine(Edge(x, x)) + Footer))
  {
    ExampleEdges(xFile, yFile);
    SelfAndOther(Example(xFile, yFile), NodeName(xFile), NodeName(yFile));
  }

  /** The graph of records whose edges are a self-edge of `x` and an edge from `x` to `y`. */
  lemma SelfAndOther(fus: seq<FuncUse>, x: string, y: string)
    requires Collect(fus) == Ok({Edge(x, x), Edge(x, y)})
    ensures Less(x, y) ==> Graph(fus) == Ok(Header + EdgeLine(Edge(x, x)) + EdgeLine(Edge(x, y)) + Footer)
    ensures Less(y, x) ==> Graph(fus) == Ok(Header + EdgeLine(Edge(x, y)) + EdgeLine(Edge(x, x)) + Footer)
    ensures x == y ==> Graph(fus) == Ok(Header + EdgeLine(Edge(x, x)) + Footer)
  {
    var es := {Edge(x, x), Edge(x, y)};
    if Less(x, y) {
      TwoLines(Edge(x, x), Edge(x, y), es);
    }
    if Less(y, x) {
      TwoLines(Edge(x, y), Edge(x, x), es);
    }
    if x == y {
      OneLine(Edge(x, x), es);
    }
  }

  lemma OneLine(a: Edge, es: set<Edge>)
    requires es == {a}
    ensures Render(Ordered(es)) == Header + EdgeLine(a) + Footer
  {
    StrictlySortedUnique([a], Ordered(es));
    var la := EdgeLine(a);
    assert [a][..0] == [];
    assert Lines([a]) == "" + la;
    assert "" + la == la;
  }

  lemma TwoLines(a: Edge, b: Edge, es: set<Edge>)
    requires Before(a, b) && es == {a, b}
    ensures Render(Ordered(es)) == Header + EdgeLine(a) + EdgeLine(b) + Footer
  {
    OrderedPair(a, b, es);
    LinesOfPair(a, b);
    Append(Header, EdgeLine(a), EdgeLine(b));
  }

  lemma OrderedPair(a: Edge, b: Edge, es: set<Edge>)
    requires Before(a, b) && es == {a, b}
    ensures Ordered(es) == [a, b]
  {
    StrictlySortedUnique([a, b], Ordered(es));
  }

  lemma LinesOfPair(a: Edge, b: Edge)
    ensures Lines([a, b]) == EdgeLine(a) + EdgeLine(b)
  {
    var la, lb := EdgeLine(a), EdgeLine(b);
    assert [a, b][..1] == [a] && [a][..0] == [];
    assert Lines([a]) == "" + la;
    assert "" + la == la;
  }

  /*
   * genFileInteractionGraph
   */

  /** The inner loop of genFileInteractionGraph: the edges of one record's uses, for a function in `from`. */
  method AddUseEdges(es: set<Edge>, from: string, uses: seq<Use>) returns (r: Result<set<Edge>, Fatal>)
    ensures r == AddUses(es, from, uses)
  {
    var acc := es;
    for j := 0 to |uses|
      invariant AddUses(es, from, uses[..j]) == Ok(acc)
    {
      assert uses[..j + 1][..j] == uses[..j];
      var use := uses[j];
      if HasPrefix(use.defLoc.file, "/usr/include/") || HasSubstring(use.defLoc.file, "/lib64/gcc/") {
        // skip standard includes
        continue;
      }
      if HasPrefix(use.name, "__builtin_") || HasPrefix(use.name, "__sync_") {
        // skip builtin identifiers
        continue;
      }
      if use.defLoc == Zero {
        AddAllFailurePersists(es, uses, j + 1, DrawFrom(from));
        return Fail(BuiltinIdentifier(use));
      }
      var useFileName := FileName(use.defLoc.file);
      if !HasPrefix(use.defLoc.file, "Source/") {
        // use the full path outside the main Source directory
        useFileName := use.defLoc.file;
      }
      acc := acc + {Edge(from, useFileName)};
    }
    assert uses[..|uses|] == uses;
    return Ok(acc);
  }

  /** The outer loop of genFileInteractionGraph: the edge set of all records. */
  method CollectEdgeSet(fus: seq<FuncUse>) returns (r: Result<set<Edge>, Fatal>)
    ensures r == Collect(fus)
  {
    var es: set<Edge> := {};
    for i := 0 to |fus|
      invariant Collect(fus[..i]) == Ok(es)
    {
      CollectStep(fus, i);
      var funcUse := fus[i];
      var funcFileName := FileName(funcUse.funcLoc.file);
      if !HasPrefix(funcUse.funcLoc.file, "Source/") {
        // use the full path outside the main Source directory
        funcFileName := funcUse.funcLoc.file;
      }
      assert funcFileName == NodeName(funcUse.funcLoc.file);
      var next := AddUseEdges(es, funcFileName, funcUse.uses);
      assert next == Collect(fus[..i + 1]);
      if next.Fail? {
        CollectFailurePersists(fus, i + 1);
        return Fail(next.error);
      }
      es := next.value;
    }
    assert fus[..|fus|] == fus;
    return Ok(es);
  }

  /** One step of the outer fold: the records up to `i` extended by record `i`. */
  lemma CollectStep(fus: seq<FuncUse>, i: nat)
    requires i < |fus|
    ensures Collect(fus[..i]).Fail? ==> Collect(fus[..i + 1]) == Collect(fus[..i])
    ensures Collect(fus[..i]).Ok? ==>
      Collect(fus[..i + 1]) == AddUses(Collect(fus[..i]).value, NodeName(fus[i].funcLoc.file), fus[i].uses)
  {
    assert fus[..i + 1][..i] == fus[..i];
  }

  /** One step of the line fold: the lines up to `k` extended by line `k`. */
  lemma LinesStep(edges: seq<Edge>, k: nat)
    requires k < |edges|
    ensures Lines(edges[..k + 1]) == Lines(edges[..k]) + EdgeLine(edges[k])
  {
    assert edges[..k + 1][..k] == edges[..k];
  }

  /** The edges of the map, in whatever order the map yields them. */
  method Keys(es: set<Edge>) returns (edges: seq<Edge>)
    ensures Distinct(edges) && |edges| == |es|
    ensures forall e :: e in edges <==> e in es
  {
    edges := [];
    var rest := es;
    while rest != {}
      invariant rest <= es && Distinct(edges) && |edges| + |rest| == |es|
      invariant forall e :: e in edges <==> e in es && e !in rest
      decreases |rest|
    {
      var e :| e in rest;
      edges := edges + [e];
      rest := rest - {e};
    }
  }

  /** The DOT text of the ordered edges. */
  method Write(edges: seq<Edge>) returns (text: string)
    ensures text == Render(edges)
  {
    var buf := Header;
    ghost var body := "";
    for k := 0 to |edges|
      invariant buf == Header + body && body == Lines(edges[..k])
    {
      LinesStep(edges, k);
      var line := EdgeLine(edges[k]);
      Append(Header, body, line);
      buf := buf + line;
      body := body + line;
    }
    assert edges[..|edges|] == edges;
    text := buf + Footer;
  }

  /** Associativity of concatenation, stated over plain variables so that the literal header stays folded. */
  lemma Append(a: string, b: string, c: string)
    ensures (a + b) + c == a + (b + c)
  {
  }

  /** The file-interaction graph of `fus` in the DOT language, or the panic on an unresolved use. */
  method GenFileInteractionGraph(fus: seq<FuncUse>) returns (r: Result<string, Fatal>)
    ensures r == Graph(fus)
  {
    var es :- CollectEdgeSet(fus);
    var edges := Keys(es);
    edges := SortEdges(edges);
    StrictlySortedUnique(edges, Ordered(es));
    var text := Write(edges);
    return Ok(text);
  }
}
