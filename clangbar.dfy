/**
 * The analysis pass of `clangbar` (cmd/clangbar/main.go): it classifies
 * every identifier use in a function body as local, global or external,
 * picks one declaration per global name as its definition, fills in the
 * definitions of forward references, and keeps the functions defined in
 * the file under analysis.
 */
module Clangbar {
  import opened Outcome
  import opened Strings
  import opened Paths
  import opened ProgInfo
  import opened Ast

  /** The conditions on which the Go code panics. */
  datatype Fatal =
    | UnsupportedScopeKind(kind: Kind)                // isGlobal meets a parent kind it does not handle
    | ScopeChainExhausted                             // isGlobal walks past the last semantic parent
    | UnsupportedNodeKind(kind: Kind)                 // isDef on a node that is neither variable nor function
    | UnsupportedExtension(ext: string, file: string) // isDefOrInSrc on an unknown file extension

  /** The messages printed through the `warn` logger. */
  datatype Warning =
    | GlobalAlreadyPresent(name: string, oldLoc: Location, newLoc: Location)
    | FunctionAlreadyPresent(name: string, oldLoc: Location, newLoc: Location)
    | UnresolvedExternal(name: string, funcName: string, funcLoc: Location)

  /*
   * Scope classification (isGlobal)
   */

  /** Containers the scope walk looks through. */
  predicate Transparent(k: Kind) {
    k.UnexposedDecl? || k.Namespace? || k.StructDecl? || k.ClassTemplate?
    || k.ClassTemplatePartialSpecialization? || k.ClassDecl? || k.EnumDecl?
  }

  /** Parents that make a declaration local. */
  predicate FunctionLike(k: Kind) {
    k.FunctionDecl? || k.FunctionTemplate? || k.Constructor? || k.CXXMethod?
  }

  /** What isGlobal decides for a chain of semantic-parent kinds, nearest first. */
  function Scope(parents: seq<Kind>): Result<bool, Fatal>
    decreases |parents|
  {
    if parents == [] then Fail(ScopeChainExhausted)
    else if Transparent(parents[0]) then Scope(parents[1..])
    else if parents[0] == TranslationUnit then Ok(true)
    else if FunctionLike(parents[0]) then Ok(false)
    else Fail(UnsupportedScopeKind(parents[0]))
  }

  /** `parents[i]` is the first parent that is not a transparent container. */
  ghost predicate DecidesAt(parents: seq<Kind>, i: int) {
    0 <= i < |parents| && !Transparent(parents[i])
    && forall j :: 0 <= j < i ==> Transparent(parents[j])
  }

  /** The first non-transparent parent decides: translation unit, function-like, or fatal. */
  lemma {:induction false} ScopeDecided(parents: seq<Kind>)
    ensures Scope(parents) == Ok(true) <==> exists i :: DecidesAt(parents, i) && parents[i] == TranslationUnit
    ensures Scope(parents) == Ok(false) <==> exists i :: DecidesAt(parents, i) && FunctionLike(parents[i])
    ensures forall k :: Scope(parents) == Fail(UnsupportedScopeKind(k)) <==>
      exists i :: DecidesAt(parents, i) && parents[i] == k && k != TranslationUnit && !FunctionLike(k)
    ensures Scope(parents) == Fail(ScopeChainExhausted) <==> forall i :: 0 <= i < |parents| ==> Transparent(parents[i])
    decreases |parents|
  {
    if parents != [] {
      var tail := parents[1..];
      ScopeDecided(tail);
      if Transparent(parents[0]) {
        forall i | DecidesAt(tail, i) ensures DecidesAt(parents, i + 1) {
          forall j | 0 <= j < i + 1 ensures Transparent(parents[j]) {
            if j > 0 { assert parents[j] == tail[j - 1]; }
          }
        }
        forall i | DecidesAt(parents, i) ensures i >= 1 && DecidesAt(tail, i - 1) {
          forall j | 0 <= j < i - 1 ensures Transparent(tail[j]) {
            assert tail[j] == parents[j + 1];
          }
        }
        if forall i :: 0 <= i < |tail| ==> Transparent(tail[i]) {
          forall i | 0 <= i < |parents| ensures Transparent(parents[i]) {
            if i > 0 { assert parents[i] == tail[i - 1]; }
          }
        }
      } else {
        assert DecidesAt(parents, 0);
        forall i | DecidesAt(parents, i) ensures i == 0 {
        }
      }
    }
  }

  /** isGlobal: walks the semantic parents of a declaration. */
  method IsGlobal(parents: seq<Kind>) returns (r: Result<bool, Fatal>)
    ensures r == Scope(parents)
  {
    var i := 0;
    while true
      invariant 0 <= i <= |parents|
      invariant Scope(parents[i..]) == Scope(parents)
      decreases |parents| - i
    {
      if i == |parents| {
        return Fail(ScopeChainExhausted);
      }
      var kind := parents[i];
      if Transparent(kind) {
        // continue with the next parent
        assert parents[i..][1..] == parents[i + 1..];
        i := i + 1;
      } else if kind == TranslationUnit {
        return Ok(true);
      } else if FunctionLike(kind) {
        return Ok(false);
      } else {
        return Fail(UnsupportedScopeKind(kind));
      }
    }
  }

  /*
   * Definitions (isDef, contains, isDefOrInSrc)
   */

  /** contains: walks the subtree and notes whether a node of `kind` occurs. */
  method Contains(root: Node, kind: Kind) returns (found: bool)
    ensures found <==> HasKind(root, kind)
  {
    var walk := Preorder(root);
    found := false;
    for i := 0 to |walk|
      invariant found <==> exists j :: 0 <= j < i && walk[j].kind == kind
    {
      if walk[i].kind == kind {
        found := true;
      }
    }
    PreorderHasKind(root, kind);
    assert found <==> exists m :: m in walk && m.kind == kind;
  }

  /**
   * isDef: a variable is a definition when it has children, a function
   * when its subtree (root included) holds a compound statement.
   */
  function IsDef(n: Node): (r: Result<bool, Fatal>)
    ensures r.Ok? <==> n.kind == VarDecl || n.kind == FunctionDecl
    ensures r.Fail? ==> r.error == UnsupportedNodeKind(n.kind)
    ensures n.kind == VarDecl ==> (r == Ok(true) <==> |n.children| > 0)
    ensures n.kind == FunctionDecl ==>
      (r == Ok(true) <==> exists m :: m in Preorder(n) && m.kind == CompoundStmt)
  {
    match n.kind
    case VarDecl => Ok(|n.children| > 0)
    case FunctionDecl =>
      PreorderHasKind(n, CompoundStmt);
      Ok(HasKind(n, CompoundStmt))
    case _ => Fail(UnsupportedNodeKind(n.kind))
  }

  const HeaderExts: set<string> := {".h", ".hpp"}
  const SourceExts: set<string> := {".c", ".cpp", ".cxx"}

  /**
   * isDefOrInSrc: a definition, or a declaration in a source file rather
   * than a header; an unknown extension outside `/include/` is fatal.
   */
  function IsDefOrInSrc(n: Node): (r: Result<bool, Fatal>)
    ensures IsDef(n).Fail? ==> r == Fail(IsDef(n).error)
    ensures IsDef(n) == Ok(true) ==> r == Ok(true)
    ensures IsDef(n) == Ok(false) ==>
      var ext := Ext(n.loc.file);
      && (r == Ok(true) <==> ext in SourceExts)
      && (r == Ok(false) <==> ext in HeaderExts || (ext !in SourceExts && HasSubstring(n.loc.file, "/include/")))
      && (r.Fail? ==> r.error == UnsupportedExtension(ext, n.loc.file))
  {
    match IsDef(n)
    case Fail(e) => Fail(e)
    case Ok(true) => Ok(true)
    case Ok(false) =>
      var ext := Ext(n.loc.file);
      if ext in HeaderExts then Ok(false)
      else if ext in SourceExts then Ok(true)
      else if HasSubstring(n.loc.file, "/include/") then Ok(false)
      else Fail(UnsupportedExtension(ext, n.loc.file))
  }

  /*
   * Walks that collect (the closures given to cc.Walk)
   */

  /** Appends what one more visited element contributes; a failure aborts the walk. */
  function Then<T>(acc: Result<seq<T>, Fatal>, r: Result<Option<T>, Fatal>): Result<seq<T>, Fatal>
  {
    match acc
    case Fail(e) => Fail(e)
    case Ok(out) =>
      match r
      case Fail(e) => Fail(e)
      case Ok(None) => Ok(out)
      case Ok(Some(y)) => Ok(out + [y])
  }

  /** Visits `xs` in order, appending what `f` yields, stopping at the first failure. */
  function Gather<S, T>(xs: seq<S>, f: S -> Result<Option<T>, Fatal>): Result<seq<T>, Fatal>
    decreases |xs|
  {
    if xs == [] then Ok([]) else Then(Gather(xs[..|xs| - 1], f), f(xs[|xs| - 1]))
  }

  /** Concatenation of two walks' results, the first failure winning. */
  function Join<T>(a: Result<seq<T>, Fatal>, b: Result<seq<T>, Fatal>): Result<seq<T>, Fatal>
  {
    match a
    case Fail(e) => Fail(e)
    case Ok(x) =>
      match b
      case Fail(e) => Fail(e)
      case Ok(y) => Ok(x + y)
  }

  /** Walking `a` then `b` gathers `a`'s results followed by `b`'s, in order. */
  lemma {:induction false} GatherAppend<S, T>(a: seq<S>, b: seq<S>, f: S -> Result<Option<T>, Fatal>)
    ensures Gather(a + b, f) == Join(Gather(a, f), Gather(b, f))
    decreases |b|
  {
    if b == [] {
      assert a + b == a;
      if Gather(a, f).Ok? {
        assert Gather(a, f).value + [] == Gather(a, f).value;
      }
    } else {
      var b' := b[..|b| - 1];
      GatherAppend(a, b', f);
      assert (a + b)[..|a + b| - 1] == a + b';
      assert (a + b)[|a + b| - 1] == b[|b| - 1];
      var x, y, r := Gather(a, f), Gather(b', f), f(b[|b| - 1]);
      if x.Ok? && y.Ok? && r.Ok? && r.value.Some? {
        assert x.value + (y.value + [r.value.value]) == (x.value + y.value) + [r.value.value];
      }
    }
  }

  /** Once a walk has failed, visiting further elements keeps that failure. */
  lemma {:induction false} GatherFailurePersists<S, T>(xs: seq<S>, k: nat, f: S -> Result<Option<T>, Fatal>)
    requires k <= |xs| && Gather(xs[..k], f).Fail?
    ensures Gather(xs, f) == Gather(xs[..k], f)
    decreases |xs| - k
  {
    if k < |xs| {
      assert xs[..k + 1][..k] == xs[..k];
      GatherFailurePersists(xs, k + 1, f);
    } else {
      assert xs[..k] == xs;
    }
  }

  /** Everything gathered comes from a visited element. */
  lemma {:induction false} GatherSound<S, T>(xs: seq<S>, f: S -> Result<Option<T>, Fatal>)
    requires Gather(xs, f).Ok?
    ensures forall y :: y in Gather(xs, f).value ==> exists x :: x in xs && f(x) == Ok(Some(y))
    decreases |xs|
  {
    if xs != [] {
      var xs' := xs[..|xs| - 1];
      GatherSound(xs', f);
      forall y | y in Gather(xs, f).value ensures exists x :: x in xs && f(x) == Ok(Some(y)) {
        if y in Gather(xs', f).value {
          var x :| x in xs' && f(x) == Ok(Some(y));
          assert x in xs;
        } else {
          assert f(xs[|xs| - 1]) == Ok(Some(y));
        }
      }
    }
  }

  /** A walk succeeds exactly when no visited element fails, and then it keeps every contribution. */
  lemma {:induction false} GatherComplete<S, T>(xs: seq<S>, f: S -> Result<Option<T>, Fatal>)
    ensures Gather(xs, f).Ok? <==> forall x :: x in xs ==> f(x).Ok?
    ensures Gather(xs, f).Ok? ==>
      forall x :: x in xs && f(x).value.Some? ==> f(x).value.value in Gather(xs, f).value
    decreases |xs|
  {
    if xs != [] {
      var xs' := xs[..|xs| - 1];
      var last := xs[|xs| - 1];
      GatherComplete(xs', f);
      assert xs == xs' + [last];
      assert forall x :: x in xs <==> x in xs' || x == last;
    }
  }

  /*
   * Uses (findUses, isExternal)
   */

  /** isExternal: clang finds no definition, or one without a location. */
  predicate IsExternal(d: Option<Decl>)
    ensures IsExternal(d) <==> d == None || d.value.loc == Zero
  {
    DefLoc(d) == Zero
  }

  /** A recorded use carries no definition location exactly when its reference is external. */
  lemma ExternalUseUnlocated(n: Node)
    requires UseOf(n).Ok? && UseOf(n).value.Some?
    ensures UseOf(n).value.value.defLoc == Zero <==> IsExternal(n.definition)
  {
  }

  /**
   * What findUses records for one visited node: external and global
   * references become uses, local ones are skipped.
   */
  function UseOf(n: Node): (r: Result<Option<Use>, Fatal>)
    ensures r.Fail? <==>
      n.kind == DeclRefExpr && !IsExternal(n.definition) && Scope(n.definition.value.parents).Fail?
    ensures r == Ok(None) <==>
      n.kind != DeclRefExpr || (!IsExternal(n.definition) && Scope(n.definition.value.parents) == Ok(false))
    ensures r.Ok? && r.value.Some? ==>
      && n.kind == DeclRefExpr
      && r.value.value == Use(n.spelling, n.loc, DefLoc(n.definition))
      && (IsExternal(n.definition) || Scope(n.definition.value.parents) == Ok(true))
  {
    if n.kind != DeclRefExpr then Ok(None)
    else if IsExternal(n.definition) then Ok(Some(Use(n.spelling, n.loc, Zero)))
    else
      match Scope(n.definition.value.parents)
      case Fail(e) => Fail(e)
      case Ok(true) => Ok(Some(Use(n.spelling, n.loc, n.definition.value.loc)))
      case Ok(false) => Ok(None)
  }

  /** findUses: one use per external or global reference of the body, in walk order. */
  method FindUses(f: Node) returns (r: Result<seq<Use>, Fatal>)
    ensures r == Gather(Preorder(f), UseOf)
  {
    var walk := Preorder(f);
    var uses: seq<Use> := [];
    for i := 0 to |walk|
      invariant Gather(walk[..i], UseOf) == Ok(uses)
    {
      assert walk[..i + 1][..i] == walk[..i];
      var n := walk[i];
      if n.kind != DeclRefExpr {
        continue;
      }
      if IsExternal(n.definition) {
        // external use: no definition location
        uses := uses + [Use(n.spelling, n.loc, Zero)];
      } else {
        var global := IsGlobal(n.definition.value.parents);
        match global
        case Fail(e) =>
          GatherFailurePersists(walk, i + 1, UseOf);
          return Fail(e);
        case Ok(true) =>
          uses := uses + [Use(n.spelling, n.loc, n.definition.value.loc)];
        case Ok(false) =>
          // local use: skipped
      }
    }
    assert walk[..|walk|] == walk;
    return Ok(uses);
  }

  /*
   * Declarations (recordNodes)
   */

  /** What recordNodes keeps of one visited node: nodes of `kind` at global scope. */
  function RecordedAs(n: Node, kind: Kind): (r: Result<Option<Node>, Fatal>)
    ensures r.Fail? <==> n.kind == kind && Scope(n.parents).Fail?
    ensures r.Ok? && r.value.Some? <==> n.kind == kind && Scope(n.parents) == Ok(true)
    ensures r.Ok? && r.value.Some? ==> r.value.value == n
  {
    if n.kind != kind then Ok(None)
    else
      match Scope(n.parents)
      case Fail(e) => Fail(e)
      case Ok(g) => Ok(if g then Some(n) else None)
  }

  function RecordedBy(kind: Kind): Node -> Result<Option<Node>, Fatal>
  {
    (n: Node) => RecordedAs(n, kind)
  }

  /** recordNodes: the global declarations of `kind` under `root`, in walk order. */
  method RecordNodes(root: Node, kind: Kind) returns (r: Result<seq<Node>, Fatal>)
    ensures r == Gather(Preorder(root), RecordedBy(kind))
  {
    var walk := Preorder(root);
    var out: seq<Node> := [];
    for i := 0 to |walk|
      invariant Gather(walk[..i], RecordedBy(kind)) == Ok(out)
    {
      assert walk[..i + 1][..i] == walk[..i];
      var n := walk[i];
      if n.kind != kind {
        continue;
      }
      var global := IsGlobal(n.parents);
      match global
      case Fail(e) =>
        GatherFailurePersists(walk, i + 1, RecordedBy(kind));
        return Fail(e);
      case Ok(g) =>
        if g {
          out := out + [n];
        }
    }
    assert walk[..|walk|] == walk;
    return Ok(out);
  }

  /*
   * Function records (the first loop of analyze)
   */

  /** What analyze records for one collected function: a record for a definition, nothing for a prototype. */
  function RecordOf(f: Node): (r: Result<Option<FuncUse>, Fatal>)
    ensures r == Ok(None) <==> IsDef(f) == Ok(false)
    ensures r.Fail? <==> IsDef(f).Fail? || (IsDef(f) == Ok(true) && Gather(Preorder(f), UseOf).Fail?)
    ensures r.Ok? && r.value.Some? ==>
      IsDef(f) == Ok(true) && r.value.value == FuncUse(f.spelling, f.loc, Gather(Preorder(f), UseOf).value)
  {
    match IsDef(f)
    case Fail(e) => Fail(e)
    case Ok(false) => Ok(None)
    case Ok(true) =>
      match Gather(Preorder(f), UseOf)
      case Fail(e) => Fail(e)
      case Ok(uses) => Ok(Some(FuncUse(f.spelling, f.loc, uses)))
  }

  /*
   * The definition map (the two merge loops of analyze)
   */

  /** Name of a global variable or function to the declaration chosen as its definition. */
  type Defs = map<string, Node>

  function AlreadyPresent(isFunc: bool, name: string, oldLoc: Location, newLoc: Location): Warning
  {
    if isFunc then FunctionAlreadyPresent(name, oldLoc, newLoc) else GlobalAlreadyPresent(name, oldLoc, newLoc)
  }

  /** One candidate meets the map: the precedence rules of the merge. */
  function Admit(defs: Defs, n: Node, isFunc: bool): (r: Result<(Defs, seq<Warning>), Fatal>)
    // a name absent from the map is inserted
    ensures n.spelling !in defs ==> r == Ok((defs[n.spelling := n], []))
    // an entry that is a definition is never replaced
    ensures n.spelling in defs && IsDef(defs[n.spelling]) == Ok(true) ==> r == Ok((defs, []))
    // any other entry is replaced exactly when the newcomer is a definition or lies in a source file,
    // and kept with a warning otherwise
    ensures n.spelling in defs && IsDef(defs[n.spelling]) == Ok(false) && IsDefOrInSrc(n) == Ok(true) ==>
      r == Ok((defs[n.spelling := n], []))
    ensures n.spelling in defs && IsDef(defs[n.spelling]) == Ok(false) && IsDefOrInSrc(n) == Ok(false) ==>
      r == Ok((defs, [AlreadyPresent(isFunc, n.spelling, defs[n.spelling].loc, n.loc)]))
    ensures r.Fail? <==>
      n.spelling in defs && (IsDef(defs[n.spelling]).Fail? || (IsDef(defs[n.spelling]) == Ok(false) && IsDefOrInSrc(n).Fail?))
  {
    var name := n.spelling;
    if name !in defs then Ok((defs[name := n], []))
    else
      match IsDef(defs[name])
      case Fail(e) => Fail(e)
      case Ok(true) => Ok((defs, []))
      case Ok(false) =>
        match IsDefOrInSrc(n)
        case Fail(e) => Fail(e)
        case Ok(true) => Ok((defs[name := n], []))
        case Ok(false) => Ok((defs, [AlreadyPresent(isFunc, name, defs[name].loc, n.loc)]))
  }

  /** The candidates folded into the map in order, with the warnings they cause. */
  function Merge(defs: Defs, cands: seq<Node>, isFunc: bool): Result<(Defs, seq<Warning>), Fatal>
    decreases |cands|
  {
    if cands == [] then Ok((defs, []))
    else
      match Merge(defs, cands[..|cands| - 1], isFunc)
      case Fail(e) => Fail(e)
      case Ok(acc) =>
        match Admit(acc.0, cands[|cands| - 1], isFunc)
        case Fail(e) => Fail(e)
        case Ok(step) => Ok((step.0, acc.1 + step.1))
  }

  lemma {:induction false} MergeFailurePersists(defs: Defs, cands: seq<Node>, k: nat, isFunc: bool)
    requires k <= |cands| && Merge(defs, cands[..k], isFunc).Fail?
    ensures Merge(defs, cands, isFunc) == Merge(defs, cands[..k], isFunc)
    decreases |cands| - k
  {
    if k < |cands| {
      assert cands[..k + 1][..k] == cands[..k];
      MergeFailurePersists(defs, cands, k + 1, isFunc);
    } else {
      assert cands[..k] == cands;
    }
  }

  /** One merge loop of analyze over `cands`, starting from `defs`. */
  method MergeDefs(defs: Defs, cands: seq<Node>, isFunc: bool) returns (r: Result<(Defs, seq<Warning>), Fatal>)
    ensures r == Merge(defs, cands, isFunc)
  {
    var m := defs;
    var warnings: seq<Warning> := [];
    for i := 0 to |cands|
      invariant Merge(defs, cands[..i], isFunc) == Ok((m, warnings))
    {
      assert cands[..i + 1][..i] == cands[..i];
      var n := cands[i];
      var name := n.spelling;
      if name in m {
        var prev := m[name];
        var prevIsDef := IsDef(prev);
        if prevIsDef.Fail? {
          MergeFailurePersists(defs, cands, i + 1, isFunc);
          return Fail(prevIsDef.error);
        }
        if prevIsDef.value {
          assert Admit(m, n, isFunc) == Ok((m, []));
          assert warnings + [] == warnings;
          continue;
        }
        var inSrc := IsDefOrInSrc(n);
        if inSrc.Fail? {
          MergeFailurePersists(defs, cands, i + 1, isFunc);
          return Fail(inSrc.error);
        }
        if inSrc.value {
          assert Admit(m, n, isFunc) == Ok((m[name := n], []));
          assert warnings + [] == warnings;
          m := m[name := n];
          continue;
        }
        assert Admit(m, n, isFunc) == Ok((m, [AlreadyPresent(isFunc, name, prev.loc, n.loc)]));
        warnings := warnings + [AlreadyPresent(isFunc, name, prev.loc, n.loc)];
        continue;
      }
      assert Admit(m, n, isFunc) == Ok((m[name := n], []));
      assert warnings + [] == warnings;
      m := m[name := n];
    }
    assert cands[..|cands|] == cands;
    return Ok((m, warnings));
  }

  /**
   * After a merge the map holds exactly the names it held and the names of
   * the candidates; each entry is the one it held or a candidate of that name.
   */
  lemma {:induction false} MergeEntries(defs: Defs, cands: seq<Node>, isFunc: bool)
    requires Merge(defs, cands, isFunc).Ok?
    ensures var d := Merge(defs, cands, isFunc).value.0;
      && d.Keys == defs.Keys + (set n | n in cands :: n.spelling)
      && forall k :: k in d ==> (k in defs && d[k] == defs[k]) || (d[k] in cands && d[k].spelling == k)
    decreases |cands|
  {
    if cands != [] {
      var prefix := cands[..|cands| - 1];
      var last := cands[|cands| - 1];
      MergeEntries(defs, prefix, isFunc);
      var acc := Merge(defs, prefix, isFunc).value.0;
      AdmitEntries(acc, last, isFunc);
      assert Merge(defs, cands, isFunc).value.0 == Admit(acc, last, isFunc).value.0;
      NamesSnoc(cands);
    }
  }

  /** The names of the candidates: those of all but the last, and the last one's. */
  lemma NamesSnoc(cands: seq<Node>)
    requires cands != []
    ensures (set n | n in cands :: n.spelling)
      == (set n | n in cands[..|cands| - 1] :: n.spelling) + {cands[|cands| - 1].spelling}
  {
    assert cands == cands[..|cands| - 1] + [cands[|cands| - 1]];
  }

  /** One admission adds the candidate's name and changes no entry but that one, and only to the candidate. */
  lemma AdmitEntries(defs: Defs, n: Node, isFunc: bool)
    requires Admit(defs, n, isFunc).Ok?
    ensures var d := Admit(defs, n, isFunc).value.0;
      && d.Keys == defs.Keys + {n.spelling}
      && forall k :: k in d ==> (k in defs && d[k] == defs[k]) || (d[k] == n && n.spelling == k)
  {
  }

  /** An entry that is already a definition survives any merge. */
  lemma {:induction false} MergeKeepsDefinition(defs: Defs, cands: seq<Node>, isFunc: bool, name: string)
    requires name in defs && IsDef(defs[name]) == Ok(true)
    requires Merge(defs, cands, isFunc).Ok?
    ensures name in Merge(defs, cands, isFunc).value.0
    ensures Merge(defs, cands, isFunc).value.0[name] == defs[name]
    decreases |cands|
  {
    if cands != [] {
      MergeKeepsDefinition(defs, cands[..|cands| - 1], isFunc, name);
    }
  }

  /** `name` is absent from the map, or held by a header declaration that is not a definition. */
  ghost predicate HeaderOrAbsent(defs: Defs, name: string) {
    name !in defs || (IsDef(defs[name]) == Ok(false) && Ext(defs[name].loc.file) in HeaderExts)
  }

  /** Every candidate other than `s` that shares its name is a header declaration. */
  ghost predicate OthersInHeaders(cands: seq<Node>, s: Node) {
    forall c :: c in cands && c.spelling == s.spelling && c != s ==>
      IsDef(c) == Ok(false) && Ext(c.loc.file) in HeaderExts
  }

  /**
   * A name declared (not defined) in headers and declared or defined once in
   * a source file resolves to the source-file declaration, wherever it lies
   * among the candidates and whatever other names surround it.
   */
  lemma {:induction false} MergeSourceWins(defs: Defs, cands: seq<Node>, s: Node, isFunc: bool)
    requires s in cands && IsDefOrInSrc(s) == Ok(true)
    requires OthersInHeaders(cands, s)
    requires HeaderOrAbsent(defs, s.spelling)
    requires Merge(defs, cands, isFunc).Ok?
    ensures s.spelling in Merge(defs, cands, isFunc).value.0
    ensures Merge(defs, cands, isFunc).value.0[s.spelling] == s
  {
    MergeSourceEntry(defs, cands, s, isFunc);
  }

  /** Before `s` is met the name is absent or a header's; from then on it is `s`'s. */
  lemma {:induction false} MergeSourceEntry(defs: Defs, cands: seq<Node>, s: Node, isFunc: bool)
    requires IsDefOrInSrc(s) == Ok(true)
    requires OthersInHeaders(cands, s)
    requires HeaderOrAbsent(defs, s.spelling)
    requires Merge(defs, cands, isFunc).Ok?
    ensures var d := Merge(defs, cands, isFunc).value.0;
      if s in cands then s.spelling in d && d[s.spelling] == s else HeaderOrAbsent(d, s.spelling)
    decreases |cands|
  {
    if cands != [] {
      var name := s.spelling;
      var prefix := cands[..|cands| - 1];
      var last := cands[|cands| - 1];
      assert cands == prefix + [last];
      assert OthersInHeaders(prefix, s);
      MergeSourceEntry(defs, prefix, s, isFunc);
      var acc := Merge(defs, prefix, isFunc).value.0;
      AdmitEntries(acc, last, isFunc);
      var d := Admit(acc, last, isFunc).value.0;
      assert Merge(defs, cands, isFunc).value.0 == d;
      assert s in cands <==> s in prefix || last == s;
      if last.spelling != name {
        assert name in d <==> name in acc;
        assert name in d ==> d[name] == acc[name];
      } else if last == s {
        assert IsDef(s).Ok?;
        assert d[name] == s;
      } else {
        assert IsDef(last) == Ok(false) && Ext(last.loc.file) in HeaderExts;
        assert IsDefOrInSrc(last) == Ok(false);
        if s in prefix {
          assert d[name] == acc[name];
        } else {
          assert HeaderOrAbsent(d, name);
        }
      }
    }
  }

  /*
   * Back-fill (resolveExternalDefs)
   */

  /**
   * A use without a definition location takes the location of the map's
   * entry for its name; every other use, and every other field, is unchanged.
   */
  function Backfill(u: Use, defs: Defs): (v: Use)
    ensures v.name == u.name && v.useLoc == u.useLoc
    ensures u.defLoc != Zero || u.name !in defs ==> v == u
    ensures u.defLoc == Zero && u.name in defs ==> v.defLoc == defs[u.name].loc
  {
    if u.defLoc == Zero && u.name in defs then u.(defLoc := defs[u.name].loc) else u
  }

  /** Each use back-filled, in place. */
  function BackfillAll(us: seq<Use>, defs: Defs): (r: seq<Use>)
    ensures |r| == |us| && forall i :: 0 <= i < |us| ==> r[i] == Backfill(us[i], defs)
  {
    seq(|us|, i requires 0 <= i < |us| => Backfill(us[i], defs))
  }

  /** A record after resolveExternalDefs. */
  function Resolved(fu: FuncUse, defs: Defs): FuncUse
  {
    fu.(uses := BackfillAll(fu.uses, defs))
  }

  /** Every record after resolveExternalDefs, in place. */
  function ResolvedAll(recs: seq<FuncUse>, defs: Defs): (r: seq<FuncUse>)
    ensures |r| == |recs| && forall i :: 0 <= i < |recs| ==> r[i] == Resolved(recs[i], defs)
  {
    seq(|recs|, i requires 0 <= i < |recs| => Resolved(recs[i], defs))
  }

  /** A use left external whose name is not a compiler builtin draws a warning. */
  predicate WarnsUnresolved(u: Use, defs: Defs) {
    u.defLoc == Zero && u.name !in defs && !HasPrefix(u.name, "__builtin_")
  }

  function WarnedBy(defs: Defs): Use -> bool {
    (u: Use) => WarnsUnresolved(u, defs)
  }

  /** The warning about use `u` of function `fu`. */
  function WarningFor(fu: FuncUse, u: Use): Warning {
    UnresolvedExternal(u.name, fu.funcName, fu.funcLoc)
  }

  /** The warnings resolveExternalDefs prints for the uses `us` of function `fu`, in order. */
  function UnresolvedIn(fu: FuncUse, us: seq<Use>, defs: Defs): seq<Warning>
    decreases |us|
  {
    if us == [] then []
    else
      var last := us[|us| - 1];
      UnresolvedIn(fu, us[..|us| - 1], defs) + (if WarnsUnresolved(last, defs) then [WarningFor(fu, last)] else [])
  }

  /** resolveExternalDefs: fills in forward references from the definition map. */
  method ResolveExternalDefs(fu: FuncUse, defs: Defs) returns (res: FuncUse, warnings: seq<Warning>)
    ensures res == Resolved(fu, defs)
    ensures warnings == UnresolvedIn(fu, fu.uses, defs)
  {
    var uses := fu.uses;
    warnings := [];
    for i := 0 to |uses|
      invariant |uses| == |fu.uses|
      invariant forall k :: 0 <= k < i ==> uses[k] == Backfill(fu.uses[k], defs)
      invariant forall k :: i <= k < |uses| ==> uses[k] == fu.uses[k]
      invariant warnings == UnresolvedIn(fu, fu.uses[..i], defs)
    {
      assert fu.uses[..i + 1][..i] == fu.uses[..i];
      var use := uses[i];
      if use.defLoc != Zero {
        // already has the location of its definition
        continue;
      }
      if use.name !in defs {
        if !HasPrefix(use.name, "__builtin_") {
          warnings := warnings + [UnresolvedExternal(use.name, fu.funcName, fu.funcLoc)];
        }
        continue;
      }
      uses := uses[i := use.(defLoc := defs[use.name].loc)];
    }
    assert fu.uses[..|fu.uses|] == fu.uses;
    res := fu.(uses := uses);
  }

  /** Back-filling twice with the same map changes nothing more. */
  lemma ResolvedIdempotent(fu: FuncUse, defs: Defs)
    ensures Resolved(Resolved(fu, defs), defs) == Resolved(fu, defs)
  {
  }

  /**
   * One warning is printed for each use that stays external and is not a
   * builtin, in the order of the uses, and for no other use.
   */
  lemma {:induction false} UnresolvedInExactly(fu: FuncUse, us: seq<Use>, defs: Defs)
    ensures forall w :: w in UnresolvedIn(fu, us, defs) <==>
      exists u :: u in us && WarnsUnresolved(u, defs) && w == WarningFor(fu, u)
    ensures var warned := Select(us, WarnedBy(defs));
      && |UnresolvedIn(fu, us, defs)| == |warned|
      && forall i :: 0 <= i < |warned| ==> UnresolvedIn(fu, us, defs)[i] == WarningFor(fu, warned[i])
    ensures |UnresolvedIn(fu, us, defs)| <= |us|
    decreases |us|
  {
    if us != [] {
      var prefix := us[..|us| - 1];
      var last := us[|us| - 1];
      UnresolvedInExactly(fu, prefix, defs);
      SelectExactly(us, WarnedBy(defs));
      assert us == prefix + [last];
      assert forall u :: u in us <==> u in prefix || u == last;
      assert WarnedBy(defs)(last) == WarnsUnresolved(last, defs);
      assert Select(us, WarnedBy(defs)) == Select(prefix, WarnedBy(defs)) + (if WarnsUnresolved(last, defs) then [last] else []);
    }
  }

  /*
   * analyze
   */

  /** The warnings of the back-fill over all records, in record order. */
  function UnresolvedAll(recs: seq<FuncUse>, defs: Defs): seq<Warning>
    decreases |recs|
  {
    if recs == [] then []
    else
      var last := recs[|recs| - 1];
      UnresolvedAll(recs[..|recs| - 1], defs) + UnresolvedIn(last, last.uses, defs)
  }

  /**
   * What analyze computes: records for the global function definitions,
   * back-filled from the map built from the global variables and then the
   * global functions, with the warnings in the order they are printed.
   */
  function Analysis(root: Node): Result<(seq<FuncUse>, seq<Warning>), Fatal>
  {
    var walk := Preorder(root);
    var globals :- Gather(walk, RecordedBy(VarDecl));
    var funcs :- Gather(walk, RecordedBy(FunctionDecl));
    var records :- Gather(funcs, RecordOf);
    var fromGlobals :- Merge(map[], globals, false);
    var fromFuncs :- Merge(fromGlobals.0, funcs, true);
    var defs := fromFuncs.0;
    Ok((ResolvedAll(records, defs), fromGlobals.1 + fromFuncs.1 + UnresolvedAll(records, defs)))
  }

  /** analyze: the function records of one translation unit, with the warnings printed on the way. */
  method Analyze(root: Node) returns (r: Result<(seq<FuncUse>, seq<Warning>), Fatal>)
    ensures r == Analysis(root)
  {
    var globals :- RecordNodes(root, VarDecl);
    var funcs :- RecordNodes(root, FunctionDecl);
    var funcUses :- FuncUses(funcs);
    var fromGlobals :- MergeDefs(map[], globals, false);
    var fromFuncs :- MergeDefs(fromGlobals.0, funcs, true);
    var resolved, unresolved := ResolveAll(funcUses, fromFuncs.0);
    return Ok((resolved, fromGlobals.1 + fromFuncs.1 + unresolved));
  }

  /** The first loop of analyze: a record for each function definition, skipping prototypes. */
  method FuncUses(funcs: seq<Node>) returns (r: Result<seq<FuncUse>, Fatal>)
    ensures r == Gather(funcs, RecordOf)
  {
    var funcUses: seq<FuncUse> := [];
    for i := 0 to |funcs|
      invariant Gather(funcs[..i], RecordOf) == Ok(funcUses)
    {
      assert funcs[..i + 1][..i] == funcs[..i];
      var f := funcs[i];
      var isDef := IsDef(f);
      if isDef.Fail? {
        GatherFailurePersists(funcs, i + 1, RecordOf);
        return Fail(isDef.error);
      }
      if !isDef.value {
        // skip function declarations
        continue;
      }
      var uses := FindUses(f);
      if uses.Fail? {
        GatherFailurePersists(funcs, i + 1, RecordOf);
        return Fail(uses.error);
      }
      funcUses := funcUses + [FuncUse(f.spelling, f.loc, uses.value)];
    }
    assert funcs[..|funcs|] == funcs;
    return Ok(funcUses);
  }

  /** The last loop of analyze: resolveExternalDefs on every record. */
  method ResolveAll(records: seq<FuncUse>, defs: Defs) returns (funcUses: seq<FuncUse>, warnings: seq<Warning>)
    ensures funcUses == ResolvedAll(records, defs)
    ensures warnings == UnresolvedAll(records, defs)
  {
    funcUses := records;
    warnings := [];
    for i := 0 to |funcUses|
      invariant |funcUses| == |records|
      invariant forall k :: 0 <= k < i ==> funcUses[k] == Resolved(records[k], defs)
      invariant forall k :: i <= k < |funcUses| ==> funcUses[k] == records[k]
      invariant warnings == UnresolvedAll(records[..i], defs)
    {
      assert records[..i + 1][..i] == records[..i];
      var fu, ws := ResolveExternalDefs(funcUses[i], defs);
      funcUses := funcUses[i := fu];
      warnings := warnings + ws;
    }
    assert records[..|records|] == records;
  }

  /** A function declared at global scope that is a definition. */
  ghost predicate GlobalDefinition(f: Node) {
    f.kind == FunctionDecl && Scope(f.parents) == Ok(true) && IsDef(f) == Ok(true)
  }

  /** `now` is `was` with only definition locations that were zero filled in. */
  ghost predicate BackfilledFrom(now: seq<Use>, was: seq<Use>) {
    |now| == |was|
    && forall j :: 0 <= j < |was| ==>
      now[j].name == was[j].name && now[j].useLoc == was[j].useLoc
      && (was[j].defLoc != Zero ==> now[j] == was[j])
  }

  /** recordNodes keeps exactly the nodes of `kind` at global scope. */
  lemma RecordedExactly(walk: seq<Node>, kind: Kind)
    requires Gather(walk, RecordedBy(kind)).Ok?
    ensures forall n :: n in Gather(walk, RecordedBy(kind)).value <==>
      n in walk && n.kind == kind && Scope(n.parents) == Ok(true)
  {
    var out := Gather(walk, RecordedBy(kind)).value;
    GatherSound(walk, RecordedBy(kind));
    GatherComplete(walk, RecordedBy(kind));
    forall n | n in out
      ensures n in walk && n.kind == kind && Scope(n.parents) == Ok(true)
    {
      var x :| x in walk && RecordedBy(kind)(x) == Ok(Some(n));
      assert RecordedBy(kind)(x) == RecordedAs(x, kind);
    }
    forall n | n in walk && n.kind == kind && Scope(n.parents) == Ok(true)
      ensures n in out
    {
      assert RecordedBy(kind)(n) == RecordedAs(n, kind);
    }
  }

  /** Some record of `recs` is under `f`'s name and location. */
  ghost predicate HasRecord(recs: seq<FuncUse>, f: Node) {
    exists fu :: fu in recs && fu.funcName == f.spelling && fu.funcLoc == f.loc
  }

  /** `rec` is the record the first loop of analyze makes of a definition among `funcs`. */
  ghost predicate RecordOfFunction(rec: FuncUse, funcs: seq<Node>) {
    exists f :: f in funcs && IsDef(f) == Ok(true) && Gather(Preorder(f), UseOf).Ok?
      && rec == FuncUse(f.spelling, f.loc, Gather(Preorder(f), UseOf).value)
  }

  /** Each record the first loop of analyze makes comes from a definition among `funcs`. */
  lemma RecordFromDefinition(funcs: seq<Node>, rec: FuncUse)
    requires Gather(funcs, RecordOf).Ok? && rec in Gather(funcs, RecordOf).value
    ensures RecordOfFunction(rec, funcs)
  {
    GatherSound(funcs, RecordOf);
    var f :| f in funcs && RecordOf(f) == Ok(Some(rec));
  }

  /** Each definition among `funcs` gets a record from the first loop of analyze. */
  lemma DefinitionRecorded(funcs: seq<Node>, f: Node)
    requires Gather(funcs, RecordOf).Ok? && f in funcs && IsDef(f) == Ok(true)
    ensures HasRecord(Gather(funcs, RecordOf).value, f)
  {
    GatherComplete(funcs, RecordOf);
    assert RecordOf(f).Ok?;
    assert RecordOf(f).value.value in Gather(funcs, RecordOf).value;
  }

  /**
   * `fu` is the record of a global function definition `f` of `walk`: under
   * `f`'s name and location, with the uses findUses extracts from `f`, only
   * the external ones back-filled.
   */
  ghost predicate RecordOfDefinition(fu: FuncUse, walk: seq<Node>) {
    exists f :: f in walk && GlobalDefinition(f) && fu.funcName == f.spelling && fu.funcLoc == f.loc
      && Gather(Preorder(f), UseOf).Ok? && BackfilledFrom(fu.uses, Gather(Preorder(f), UseOf).value)
  }

  /** The record of a global function definition, once back-filled, is still that definition's. */
  lemma ResolvedOfDefinition(walk: seq<Node>, f: Node, defs: Defs)
    requires f in walk && GlobalDefinition(f) && Gather(Preorder(f), UseOf).Ok?
    ensures RecordOfDefinition(Resolved(FuncUse(f.spelling, f.loc, Gather(Preorder(f), UseOf).value), defs), walk)
  {
    var uses := Gather(Preorder(f), UseOf).value;
    var fu := Resolved(FuncUse(f.spelling, f.loc, uses), defs);
    assert BackfilledFrom(fu.uses, uses);
  }

  /** The records built from the global functions of a walk, once back-filled, each belong to a global function definition. */
  lemma ResolvedRecordsSound(walk: seq<Node>, funcs: seq<Node>, records: seq<FuncUse>, defs: Defs)
    requires Gather(walk, RecordedBy(FunctionDecl)) == Ok(funcs)
    requires Gather(funcs, RecordOf) == Ok(records)
    ensures forall fu :: fu in ResolvedAll(records, defs) ==> RecordOfDefinition(fu, walk)
  {
    var recs := ResolvedAll(records, defs);
    RecordedExactly(walk, FunctionDecl);
    forall fu | fu in recs
      ensures RecordOfDefinition(fu, walk)
    {
      var i :| 0 <= i < |recs| && recs[i] == fu;
      var rec := records[i];
      assert rec in records;
      RecordFromDefinition(funcs, rec);
      var f :| f in funcs && IsDef(f) == Ok(true) && Gather(Preorder(f), UseOf).Ok?
        && rec == FuncUse(f.spelling, f.loc, Gather(Preorder(f), UseOf).value);
      assert f in walk && GlobalDefinition(f);
      ResolvedOfDefinition(walk, f, defs);
    }
  }

  /** Every global function definition of a walk has a record, once back-filled. */
  lemma ResolvedRecordsComplete(walk: seq<Node>, funcs: seq<Node>, records: seq<FuncUse>, defs: Defs)
    requires Gather(walk, RecordedBy(FunctionDecl)) == Ok(funcs)
    requires Gather(funcs, RecordOf) == Ok(records)
    ensures forall f :: f in walk && GlobalDefinition(f) ==> HasRecord(ResolvedAll(records, defs), f)
  {
    var recs := ResolvedAll(records, defs);
    RecordedExactly(walk, FunctionDecl);
    forall f | f in walk && GlobalDefinition(f)
      ensures HasRecord(recs, f)
    {
      assert f in funcs;
      DefinitionRecorded(funcs, f);
      var rec :| rec in records && rec.funcName == f.spelling && rec.funcLoc == f.loc;
      var i :| 0 <= i < |records| && records[i] == rec;
      assert recs[i] == Resolved(rec, defs);
      assert recs[i] in recs;
    }
  }

  /**
   * analyze yields one record per global function definition of the walk,
   * under that function's name and location, holding the uses findUses
   * extracts from it with only the external ones back-filled.
   */
  lemma AnalysisRecords(root: Node)
    requires Analysis(root).Ok?
    ensures forall fu :: fu in Analysis(root).value.0 ==> RecordOfDefinition(fu, Preorder(root))
    ensures forall f :: f in Preorder(root) && GlobalDefinition(f) ==> HasRecord(Analysis(root).value.0, f)
  {
    var walk := Preorder(root);
    var funcs := Gather(walk, RecordedBy(FunctionDecl)).value;
    var records := Gather(funcs, RecordOf).value;
    var fromGlobals := Merge(map[], Gather(walk, RecordedBy(VarDecl)).value, false).value;
    var defs := Merge(fromGlobals.0, funcs, true).value.0;
    assert Analysis(root).value.0 == ResolvedAll(records, defs);
    ResolvedRecordsSound(walk, funcs, records, defs);
    ResolvedRecordsComplete(walk, funcs, records, defs);
  }

  /*
   * filter
   */

  /** The record's function lives in `srcPath`, extensions aside. */
  predicate InSource(fu: FuncUse, srcPath: string) {
    TrimExt(fu.funcLoc.file) == TrimExt(srcPath)
  }

  function InSourceOf(srcPath: string): FuncUse -> bool {
    (fu: FuncUse) => InSource(fu, srcPath)
  }

  /** The elements of `xs` that satisfy `keep`, in their order. */
  function Select<T>(xs: seq<T>, keep: T -> bool): seq<T>
    decreases |xs|
  {
    if xs == [] then []
    else Select(xs[..|xs| - 1], keep) + (if keep(xs[|xs| - 1]) then [xs[|xs| - 1]] else [])
  }

  /** The records of `fus` defined in `srcPath`, in their order. */
  function Kept(fus: seq<FuncUse>, srcPath: string): seq<FuncUse> {
    Select(fus, InSourceOf(srcPath))
  }

  /** filter: drops the records of functions defined outside `srcPath`. */
  method Filter(fus: seq<FuncUse>, srcPath: string) returns (after: seq<FuncUse>)
    ensures after == Kept(fus, srcPath)
  {
    after := [];
    for i := 0 to |fus|
      invariant after == Select(fus[..i], InSourceOf(srcPath))
    {
      assert fus[..i + 1][..i] == fus[..i];
      var fu := fus[i];
      if TrimExt(fu.funcLoc.file) != TrimExt(srcPath) {
        // skip functions not part of the source file
        continue;
      }
      after := after + [fu];
    }
    assert fus[..|fus|] == fus;
  }

  lemma {:induction false} SelectExactly<T>(xs: seq<T>, keep: T -> bool)
    ensures forall x :: x in Select(xs, keep) <==> x in xs && keep(x)
    decreases |xs|
  {
    if xs != [] {
      var prefix := xs[..|xs| - 1];
      SelectExactly(prefix, keep);
      assert xs == prefix + [xs[|xs| - 1]];
    }
  }

  lemma SelectSnoc<T>(xs: seq<T>, x: T, keep: T -> bool)
    ensures Select(xs + [x], keep) == Select(xs, keep) + if keep(x) then [x] else []
  {
    assert (xs + [x])[..|xs|] == xs;
  }

  lemma {:induction false} SelectAppend<T>(a: seq<T>, b: seq<T>, keep: T -> bool)
    ensures Select(a + b, keep) == Select(a, keep) + Select(b, keep)
    decreases |b|
  {
    if b == [] {
      assert a + b == a;
    } else {
      var b' := b[..|b| - 1];
      var last := b[|b| - 1];
      SelectAppend(a, b', keep);
      assert a + b == (a + b') + [last];
      assert b == b' + [last];
      SelectSnoc(a + b', last, keep);
      SelectSnoc(b', last, keep);
    }
  }

  lemma {:induction false} SelectIdempotent<T>(xs: seq<T>, keep: T -> bool)
    ensures Select(Select(xs, keep), keep) == Select(xs, keep)
    decreases |xs|
  {
    if xs != [] {
      var prefix := xs[..|xs| - 1];
      var last := xs[|xs| - 1];
      SelectIdempotent(prefix, keep);
      var tail := if keep(last) then [last] else [];
      SelectAppend(Select(prefix, keep), tail, keep);
      if keep(last) {
        SelectSnoc([], last, keep);
        assert [] + [last] == tail;
      }
    }
  }

  /** Exactly the records of `srcPath` survive. */
  lemma KeptExactly(fus: seq<FuncUse>, srcPath: string)
    ensures forall fu :: fu in Kept(fus, srcPath) <==> fu in fus && InSource(fu, srcPath)
  {
    SelectExactly(fus, InSourceOf(srcPath));
  }

  /** Filtering keeps relative order: it distributes over concatenation. */
  lemma KeptAppend(a: seq<FuncUse>, b: seq<FuncUse>, srcPath: string)
    ensures Kept(a + b, srcPath) == Kept(a, srcPath) + Kept(b, srcPath)
  {
    SelectAppend(a, b, InSourceOf(srcPath));
  }

  /** Filtering an already filtered list changes nothing. */
  lemma KeptIdempotent(fus: seq<FuncUse>, srcPath: string)
    ensures Kept(Kept(fus, srcPath), srcPath) == Kept(fus, srcPath)
  {
    SelectIdempotent(fus, InSourceOf(srcPath));
  }
}
