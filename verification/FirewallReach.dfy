/** Which chains of an iptables table are live. The script collects the jumps of the listed rules,
    marks the built-in chains, relaxes every jump edge_count + 1 times in whatever order awk walks
    its array, and reports a table whose marked or mentioned chains include a CATTLE_ one. */
module FirewallReach {
  import opened Text

  const SUBSEP := '\U{1c}'
  const BUILTIN := {"INPUT", "FORWARD", "OUTPUT", "PREROUTING", "POSTROUTING"}

  type Edge = (string, string)

  // ---------------------------------------------------------------- jumps

  predicate Blank(c: char) { c == ' ' || c == '\t' }

  function WordEnd(s: string): (n: nat)
    ensures n <= |s| && (s != "" && !Blank(s[0]) ==> n > 0)
  {
    if s == "" || Blank(s[0]) then 0 else 1 + WordEnd(s[1..])
  }

  /** awk's fields: the runs of non-blank characters. */
  function Fields(s: string): seq<string>
    decreases |s|
  {
    if s == "" then []
    else if Blank(s[0]) then Fields(s[1..])
    else [s[..WordEnd(s)]] + Fields(s[WordEnd(s)..])
  }

  predicate BlankFree(s: string) { forall i :: 0 <= i < |s| ==> s[i] != ' ' && s[i] != '\t' }

  predicate AllBlank(s: string) { forall i :: 0 <= i < |s| ==> s[i] == ' ' || s[i] == '\t' }

  lemma {:induction false} WordEndsAt(word: string, rest: string)
    requires BlankFree(word) && (rest == "" || rest[0] == ' ' || rest[0] == '\t')
    ensures WordEnd(word + rest) == |word|
  {
    if word != "" {
      assert (word + rest)[1..] == word[1..] + rest;
      WordEndsAt(word[1..], rest);
    } else {
      assert word + rest == rest;
    }
  }

  lemma {:induction false} BlanksAreSkipped(blanks: string, rest: string)
    requires AllBlank(blanks)
    ensures Fields(blanks + rest) == Fields(rest)
  {
    if blanks == "" {
      assert blanks + rest == rest;
    } else {
      assert (blanks + rest)[1..] == blanks[1..] + rest;
      BlanksAreSkipped(blanks[1..], rest);
    }
  }

  /** A word, the blanks after it, and what follows: the word is one field. */
  lemma FieldsOfWord(word: string, blanks: string, rest: string)
    requires word != "" && BlankFree(word) && AllBlank(blanks) && (blanks == "" ==> rest == "")
    ensures Fields(word + blanks + rest) == [word] + Fields(rest)
  {
    var line := word + blanks + rest;
    assert line == word + (blanks + rest);
    assert blanks != "" ==> (blanks + rest)[0] == blanks[0];
    WordEndsAt(word, blanks + rest);
    assert line[0] == word[0];
    assert line[..|word|] == word && line[|word|..] == blanks + rest;
    BlanksAreSkipped(blanks, rest);
  }

  /** Words free of blanks, joined by blanks, are read back. */
  lemma {:induction false} FieldsOfWords(words: seq<string>)
    requires |words| > 0 && forall w :: w in words ==> w != "" && BlankFree(w)
    ensures Fields(Join(words, ' ')) == words
  {
    assert words[0] in words;
    if |words| == 1 {
      FieldsOfWord(words[0], "", "");
      assert words[0] + "" + "" == words[0];
    } else {
      assert forall w :: w in words[1..] ==> w in words;
      FieldsOfWords(words[1..]);
      FieldsOfWord(words[0], " ", Join(words[1..], ' '));
      assert words == [words[0]] + words[1..];
    }
  }

  /** Field i of an appended rule is a jump or goto; the next field is its target. */
  predicate JumpAt(fields: seq<string>, i: nat) {
    && |fields| > 0 && fields[0] == "-A" && 2 <= i < |fields| - 1
    && (fields[i] == "-j" || fields[i] == "-g")
  }

  function KeyAt(fields: seq<string>, i: nat): string
    requires JumpAt(fields, i)
  {
    fields[1] + [SUBSEP] + fields[i + 1]
  }

  ghost predicate HasKey(rules: seq<seq<string>>, key: string) {
    exists r, i: nat :: r in rules && JumpAt(r, i) && KeyAt(r, i) == key
  }

  /** Some rule of chain a jumps to chain b. */
  ghost predicate Jumps(rules: seq<seq<string>>, a: string, b: string) {
    exists r, i: nat :: r in rules && JumpAt(r, i) && r[1] == a && r[i + 1] == b
  }

  ghost predicate RowHasKey(r: seq<string>, key: string) {
    exists i: nat :: JumpAt(r, i) && KeyAt(r, i) == key
  }

  lemma HasKeyStep(rules: seq<seq<string>>, n: nat, key: string)
    requires n < |rules|
    ensures HasKey(rules[..n + 1], key) <==> HasKey(rules[..n], key) || RowHasKey(rules[n], key)
  {
    assert rules[..n + 1] == rules[..n] + [rules[n]];
    if HasKey(rules[..n], key) {
      var r, i: nat :| r in rules[..n] && JumpAt(r, i) && KeyAt(r, i) == key;
      assert r in rules[..n + 1];
    }
    if RowHasKey(rules[n], key) { assert rules[n] in rules[..n + 1]; }
  }

  method CollectEdges(rules: seq<seq<string>>) returns (edge: set<string>, count: nat)
    ensures forall key :: key in edge <==> HasKey(rules, key)
    ensures count == |edge|
  {
    edge, count := {}, 0;
    for n := 0 to |rules|
      invariant forall key :: key in edge <==> HasKey(rules[..n], key)
      invariant count == |edge|
    {
      var r := rules[n];
      ghost var before := edge;
      var i := 2;
      while i < |r| - 1 && r[0] == "-A"
        invariant 2 <= i
        invariant forall key :: key in edge <==>
          key in before || (exists k: nat :: k < i && JumpAt(r, k) && KeyAt(r, k) == key)
        invariant count == |edge|
      {
        if r[i] == "-j" || r[i] == "-g" {
          assert JumpAt(r, i);
          var key := KeyAt(r, i);
          if key !in edge {
            edge := edge + {key};
            count := count + 1;
          }
        }
        i := i + 1;
      }
      forall key ensures HasKey(rules[..n + 1], key) <==> HasKey(rules[..n], key) || RowHasKey(r, key) {
        HasKeyStep(rules, n, key);
      }
    }
    assert rules[..|rules|] == rules;
  }

  /** split(item, pair, SUBSEP): the first two pieces. */
  function Ends(item: string): Edge {
    var pieces := Split(item, SUBSEP);
    (pieces[0], if |pieces| > 1 then pieces[1] else "")
  }

  function Edges(items: set<string>): set<Edge> {
    set item | item in items :: Ends(item)
  }

  /** The edges the program follows, as it splits its own keys. */
  function EdgesOf(rules: seq<seq<string>>): set<Edge> {
    set r, i: nat | r in rules && i < |r| && JumpAt(r, i) :: Ends(KeyAt(r, i))
  }

  lemma CollectedEdges(rules: seq<seq<string>>, items: set<string>)
    requires forall key :: key in items <==> HasKey(rules, key)
    ensures Edges(items) == EdgesOf(rules)
  {
    forall e | e in Edges(items) ensures e in EdgesOf(rules) {
      var item :| item in items && Ends(item) == e;
      var r, i: nat :| r in rules && JumpAt(r, i) && KeyAt(r, i) == item;
    }
    forall e | e in EdgesOf(rules) ensures e in Edges(items) {
      var r, i: nat :| r in rules && i < |r| && JumpAt(r, i) && Ends(KeyAt(r, i)) == e;
      assert HasKey(rules, KeyAt(r, i));
    }
  }

  ghost predicate SeparatorFree(rules: seq<seq<string>>) {
    forall r, f :: r in rules && f in r ==> SUBSEP !in f
  }

  lemma EndsOfKey(a: string, b: string)
    requires SUBSEP !in a && SUBSEP !in b
    ensures Ends(a + [SUBSEP] + b) == (a, b)
  {
    assert [a, b][1..] == [b];
    assert Join([b], SUBSEP) == b;
    assert Join([a, b], SUBSEP) == a + [SUBSEP] + b;
    SplitJoin([a, b], SUBSEP);
  }

  /** Without the separator in chain names, the edges are exactly the jumps of the rules. */
  lemma EdgesAreJumps(rules: seq<seq<string>>, a: string, b: string)
    requires SeparatorFree(rules)
    ensures (a, b) in EdgesOf(rules) <==> Jumps(rules, a, b)
  {
    forall r, i: nat | r in rules && JumpAt(r, i) ensures Ends(KeyAt(r, i)) == (r[1], r[i + 1]) {
      EndsOfKey(r[1], r[i + 1]);
    }
    if Jumps(rules, a, b) {
      var r, i: nat :| r in rules && JumpAt(r, i) && r[1] == a && r[i + 1] == b;
      assert Ends(KeyAt(r, i)) in EdgesOf(rules);
    }
  }

  // ---------------------------------------------------------------- reachability

  /** A walk along edges that starts in a root. */
  ghost predicate IsPath(roots: set<string>, edges: set<Edge>, path: seq<string>) {
    && path != [] && path[0] in roots
    && forall i :: 0 <= i < |path| - 1 ==> (path[i], path[i + 1]) in edges
  }

  ghost predicate Reachable(roots: set<string>, edges: set<Edge>, chain: string) {
    exists path :: IsPath(roots, edges, path) && path[|path| - 1] == chain
  }

  lemma RootIsReachable(roots: set<string>, edges: set<Edge>, chain: string)
    requires chain in roots
    ensures Reachable(roots, edges, chain)
  {
    assert IsPath(roots, edges, [chain]);
  }

  lemma JumpExtends(roots: set<string>, edges: set<Edge>, a: string, b: string)
    requires Reachable(roots, edges, a) && (a, b) in edges
    ensures Reachable(roots, edges, b)
  {
    var path :| IsPath(roots, edges, path) && path[|path| - 1] == a;
    assert IsPath(roots, edges, path + [b]);
  }

  ghost predicate Closed(edges: set<Edge>, chains: set<string>) {
    forall a, b :: (a, b) in edges && a in chains ==> b in chains
  }

  lemma {:induction false} ClosedCoversPath(roots: set<string>, edges: set<Edge>, chains: set<string>,
                                            path: seq<string>)
    requires roots <= chains && Closed(edges, chains) && IsPath(roots, edges, path)
    ensures path[|path| - 1] in chains
  {
    if |path| > 1 {
      ClosedCoversPath(roots, edges, chains, path[..|path| - 1]);
      assert (path[|path| - 2], path[|path| - 1]) in edges;
    }
  }

  /** A closed set of reachable chains with all roots is the set of reachable chains. */
  lemma ClosedCovers(roots: set<string>, edges: set<Edge>, chains: set<string>, chain: string)
    requires roots <= chains && Closed(edges, chains) && Reachable(roots, edges, chain)
    ensures chain in chains
  {
    var path :| IsPath(roots, edges, path) && path[|path| - 1] == chain;
    ClosedCoversPath(roots, edges, chains, path);
  }

  // ---------------------------------------------------------------- relaxation

  /** awk's `reach`: true stands for 1, false for the empty value that reading a key creates. */
  type Marks = map<string, bool>

  function Marked(reach: Marks): set<string> {
    set c | c in reach && reach[c]
  }

  function Sources(edges: set<Edge>): set<string> { set e | e in edges :: e.0 }

  function Targets(edges: set<Edge>): set<string> { set e | e in edges :: e.1 }

  /** All marks are reachable, and every key is marked or was read. */
  ghost predicate Sound(roots: set<string>, edges: set<Edge>, reach: Marks) {
    && roots <= Marked(reach) <= roots + Targets(edges)
    && (forall c :: c in Marked(reach) ==> Reachable(roots, edges, c))
    && reach.Keys <= Marked(reach) + Sources(edges)
  }

  function Touch(reach: Marks, a: string): Marks { if a in reach then reach else reach[a := false] }

  lemma TouchIsSound(roots: set<string>, edges: set<Edge>, reach: Marks, e: Edge)
    requires Sound(roots, edges, reach) && e in edges
    ensures Sound(roots, edges, Touch(reach, e.0)) && Marked(Touch(reach, e.0)) == Marked(reach)
  {
    assert e.0 in Sources(edges);
    assert Marked(Touch(reach, e.0)) == Marked(reach);
  }

  lemma MarkIsSound(roots: set<string>, edges: set<Edge>, reach: Marks, e: Edge)
    requires Sound(roots, edges, reach) && e in edges && e.0 in Marked(reach)
    ensures Sound(roots, edges, reach[e.1 := true]) && Marked(reach[e.1 := true]) == Marked(reach) + {e.1}
  {
    MarkGrows(reach, e.1);
    TargetIsTarget(edges, e);
    forall c | c in Marked(reach) + {e.1} ensures Reachable(roots, edges, c) {
      if c == e.1 { JumpExtends(roots, edges, e.0, e.1); }
    }
  }

  lemma MarkGrows(reach: Marks, b: string)
    ensures Marked(reach[b := true]) == Marked(reach) + {b}
  {
  }

  lemma TargetIsTarget(edges: set<Edge>, e: Edge)
    requires e in edges
    ensures e.1 in Targets(edges) && (e.0, e.1) in edges
  {
    assert e == (e.0, e.1);
  }

  /** Every edge of `done` was read, and its target is marked if its source was marked before. */
  ghost predicate Relaxed(done: set<Edge>, before: set<string>, reach: Marks) {
    forall e :: e in done ==> e.0 in reach && (e.0 in before ==> e.1 in Marked(reach))
  }

  /** One pass, in any order: marks only grow, and every edge whose source was marked before the
      pass has its target marked after it. */
  method Pass(roots: set<string>, edges: set<Edge>, reach: Marks) returns (next: Marks)
    requires Sound(roots, edges, reach)
    ensures Sound(roots, edges, next) && Marked(reach) <= Marked(next)
    ensures Relaxed(edges, Marked(reach), next)
  {
    next := reach;
    var rest := edges;
    while rest != {}
      invariant rest <= edges
      invariant Sound(roots, edges, next) && Marked(reach) <= Marked(next)
      invariant Relaxed(edges - rest, Marked(reach), next)
    {
      var e :| e in rest;
      rest := rest - {e};
      TouchIsSound(roots, edges, next, e);
      next := Touch(next, e.0);
      if next[e.0] {
        MarkIsSound(roots, edges, next, e);
        next := next[e.1 := true];
      }
    }
    assert edges - rest == edges;
  }

  lemma {:induction false} ImageSize(edges: set<Edge>)
    ensures |Targets(edges)| <= |edges|
  {
    if edges != {} {
      var e :| e in edges;
      ImageSize(edges - {e});
      assert Targets(edges) == Targets(edges - {e}) + {e.1};
    }
  }

  lemma {:induction false} EdgesSize(items: set<string>)
    ensures |Edges(items)| <= |items|
  {
    if items != {} {
      var item :| item in items;
      EdgesSize(items - {item});
      assert Edges(items) == Edges(items - {item}) + {Ends(item)};
    }
  }

  lemma SubsetSize<T>(a: set<T>, b: set<T>)
    requires a <= b
    ensures |a| <= |b| && (a != b ==> |a| < |b|)
  {
    assert b == a + (b - a);
  }

  lemma ExtraMarksBound(roots: set<string>, edges: set<Edge>, reach: Marks)
    requires Sound(roots, edges, reach)
    ensures |Marked(reach) - roots| <= |edges|
  {
    ImageSize(edges);
    SubsetSize(Marked(reach) - roots, Targets(edges));
  }

  /** A pass over closed marks changes none, and any other pass adds one. */
  lemma PassProgress(roots: set<string>, edges: set<Edge>, before: Marks, after: Marks)
    requires Sound(roots, edges, before) && Sound(roots, edges, after)
    requires Marked(before) <= Marked(after) && Relaxed(edges, Marked(before), after)
    ensures Closed(edges, Marked(before)) ==> Marked(after) == Marked(before)
    ensures !Closed(edges, Marked(before)) ==> |Marked(after) - roots| > |Marked(before) - roots|
  {
    if Closed(edges, Marked(before)) {
      forall c | c in Marked(after) ensures c in Marked(before) { ClosedCovers(roots, edges, Marked(before), c); }
    } else {
      var a, b :| (a, b) in edges && a in Marked(before) && b !in Marked(before);
      var e := (a, b);
      assert e in edges && e.1 in Marked(after) - roots && e.1 !in Marked(before) - roots;
      SubsetSize(Marked(before) - roots, Marked(after) - roots);
    }
  }

  /** After edge_count + 1 passes the chains marked 1 are exactly the reachable ones, and the keys
      are those plus the sources of jumps. */
  method Relax(roots: set<string>, edges: set<Edge>, edgeCount: nat) returns (reach: Marks)
    requires |edges| <= edgeCount
    ensures forall c :: c in Marked(reach) <==> Reachable(roots, edges, c)
    ensures reach.Keys == Marked(reach) + Sources(edges)
  {
    reach := map c | c in roots :: true;
    assert Marked(reach) == roots;
    forall c | c in roots ensures Reachable(roots, edges, c) { RootIsReachable(roots, edges, c); }
    for pass := 0 to edgeCount + 1
      invariant Sound(roots, edges, reach)
      invariant Closed(edges, Marked(reach)) || |Marked(reach) - roots| >= pass
      invariant pass > 0 ==> Sources(edges) <= reach.Keys
    {
      ghost var before := reach;
      reach := Pass(roots, edges, reach);
      PassProgress(roots, edges, before, reach);
    }
    ExtraMarksBound(roots, edges, reach);
    forall c | Reachable(roots, edges, c) ensures c in Marked(reach) { ClosedCovers(roots, edges, Marked(reach), c); }
    assert Marked(reach) <= reach.Keys;
  }

  // ---------------------------------------------------------------- the verdict

  predicate Cattle(chain: string) { "CATTLE_" <= chain }

  /** A CATTLE_ chain is reachable along jumps from a built-in chain. */
  ghost predicate LiveHook(rules: seq<seq<string>>) {
    exists c :: Cattle(c) && ReachableByJumps(rules, c)
  }

  ghost predicate IsJumpPath(rules: seq<seq<string>>, path: seq<string>) {
    && path != [] && path[0] in BUILTIN
    && forall i :: 0 <= i < |path| - 1 ==> Jumps(rules, path[i], path[i + 1])
  }

  ghost predicate ReachableByJumps(rules: seq<seq<string>>, chain: string) {
    exists path :: IsJumpPath(rules, path) && path[|path| - 1] == chain
  }

  /** A CATTLE_ chain has a jump of its own, whether or not anything reaches it. */
  ghost predicate JumpingHook(rules: seq<seq<string>>) {
    exists a, b :: Cattle(a) && Jumps(rules, a, b)
  }

  lemma ReachableIsByJumps(rules: seq<seq<string>>, chain: string)
    requires SeparatorFree(rules)
    ensures Reachable(BUILTIN, EdgesOf(rules), chain) <==> ReachableByJumps(rules, chain)
  {
    if Reachable(BUILTIN, EdgesOf(rules), chain) {
      var path :| IsPath(BUILTIN, EdgesOf(rules), path) && path[|path| - 1] == chain;
      forall i | 0 <= i < |path| - 1 ensures Jumps(rules, path[i], path[i + 1]) {
        EdgesAreJumps(rules, path[i], path[i + 1]);
      }
      assert IsJumpPath(rules, path);
    }
    if ReachableByJumps(rules, chain) {
      var path :| IsJumpPath(rules, path) && path[|path| - 1] == chain;
      forall i | 0 <= i < |path| - 1 ensures (path[i], path[i + 1]) in EdgesOf(rules) {
        EdgesAreJumps(rules, path[i], path[i + 1]);
      }
      assert IsPath(BUILTIN, EdgesOf(rules), path);
    }
  }

  /** A CATTLE_ chain is reached along the program's edges or has one of its own. */
  ghost predicate Hooked(rules: seq<seq<string>>) {
    exists c :: Cattle(c) && (Reachable(BUILTIN, EdgesOf(rules), c) || c in Sources(EdgesOf(rules)))
  }

  /** The awk program exits 0 exactly for hooked rule sets. */
  method AnyHook(rules: seq<seq<string>>) returns (active: bool)
    ensures active <==> Hooked(rules)
  {
    var edge, count := CollectEdges(rules);
    EdgesSize(edge);
    CollectedEdges(rules, edge);
    var reach := Relax(BUILTIN, Edges(edge), count);
    active := exists c :: c in reach.Keys && Cattle(c);
  }

  lemma SourcesJump(rules: seq<seq<string>>, a: string)
    requires SeparatorFree(rules)
    ensures a in Sources(EdgesOf(rules)) <==> exists b :: Jumps(rules, a, b)
  {
    if a in Sources(EdgesOf(rules)) {
      var e :| e in EdgesOf(rules) && e.0 == a;
      assert e == (a, e.1);
      EdgesAreJumps(rules, a, e.1);
    }
    if b :| Jumps(rules, a, b) {
      EdgesAreJumps(rules, a, b);
      assert (a, b) in EdgesOf(rules);
    }
  }

  /** A rule set is hooked exactly when some CATTLE_ chain is live or itself jumps; so every live
      hook is reported. */
  lemma HookedMeansLiveOrJumping(rules: seq<seq<string>>)
    requires SeparatorFree(rules)
    ensures Hooked(rules) <==> LiveHook(rules) || JumpingHook(rules)
  {
    forall c ensures Reachable(BUILTIN, EdgesOf(rules), c) <==> ReachableByJumps(rules, c) {
      ReachableIsByJumps(rules, c);
    }
    forall c ensures c in Sources(EdgesOf(rules)) <==> exists b :: Jumps(rules, c, b) { SourcesJump(rules, c); }
  }

  /** What the frontend printed, or why it printed nothing. */
  datatype Listing = Listed(lines: seq<string>) | Unsupported | Unreadable

  datatype Verdict = Active | Absent | Failed

  function Parsed(lines: seq<string>): seq<seq<string>> {
    seq(|lines|, i requires 0 <= i < |lines| => Fields(lines[i]))
  }

  /** xt_conflicting_host_rules. `awkRuns` is false when awk itself breaks off: it then exits
      neither 0 nor 1. */
  method ConflictingHostRules(nft: bool, table: string, listing: Listing, awkRuns: bool) returns (v: Verdict)
    ensures match listing
      case Unreadable => v == Failed
      case Unsupported => v == if nft then Absent else Failed
      case Listed(lines) =>
        v == if table == "filter" && "-P FORWARD DROP" in lines then Active
             else if !awkRuns then Failed
             else if Hooked(Parsed(lines)) then Active else Absent
  {
    match listing
    case Unreadable => v := Failed;
    case Unsupported => v := if nft then Absent else Failed;
    case Listed(lines) =>
      if table == "filter" && "-P FORWARD DROP" in lines { return Active; }
      if !awkRuns { return Failed; }
      var active := AnyHook(Parsed(lines));
      v := if active then Active else Absent;
  }

  function OneJump(a: string, b: string): (rules: seq<seq<string>>)
    ensures Jumps(rules, a, b)
    ensures SUBSEP !in a && SUBSEP !in b ==> SeparatorFree(rules)
  {
    var r := ["-A", a, "-j", b];
    assert JumpAt(r, 2) && r[1] == a && r[3] == b;
    [r]
  }

  /** A CATTLE_ chain that nothing reaches is reported all the same if it holds a jump, although
      the script means to skip orphan chains. */
  lemma OrphanIsReported(hook: string, target: string)
    requires Cattle(hook) && SUBSEP !in hook && SUBSEP !in target
    ensures var rules := OneJump(hook, target); SeparatorFree(rules) && Hooked(rules) && !LiveHook(rules)
  {
    var rules := OneJump(hook, target);
    assert JumpingHook(rules);
    HookedMeansLiveOrJumping(rules);
    forall c | ReachableByJumps(rules, c) ensures !Cattle(c) {
      var path :| IsJumpPath(rules, path) && path[|path| - 1] == c;
      BuiltinIsNoHook(path[0]);
      if |path| > 1 {
        FirstJump(rules, path);
        OnlyTheHookJumps(rules, path[0], path[1]);
        assert false;
      }
    }
  }

  lemma FirstJump(rules: seq<seq<string>>, path: seq<string>)
    requires IsJumpPath(rules, path) && |path| > 1
    ensures Jumps(rules, path[0], path[1])
  {
    assert Jumps(rules, path[0], path[0 + 1]);
  }

  lemma OnlyTheHookJumps(rules: seq<seq<string>>, a: string, b: string)
    requires |rules| == 1 && |rules[0]| > 1 && rules[0][1] != a
    ensures !Jumps(rules, a, b)
  {
  }

  lemma BuiltinIsNoHook(chain: string)
    requires chain in BUILTIN
    ensures chain != "" && chain[0] != 'C' && !Cattle(chain)
  {
    assert "CATTLE_"[0] == 'C';
  }

  // ---------------------------------------------------------------- the rules in their own words

  /** A chain jumps to another exactly when a rule appended to it has the other after a jump or goto. */
  lemma JumpsMeans(rules: seq<seq<string>>, a: string, b: string)
    ensures Jumps(rules, a, b) <==> exists r, i: nat ::
      r in rules && 2 <= i && i + 1 < |r| && r[0] == "-A" && r[1] == a && r[i + 1] == b && r[i] in {"-j", "-g"}
  {
    if r, i: nat :|
      r in rules && 2 <= i && i + 1 < |r| && r[0] == "-A" && r[1] == a && r[i + 1] == b && r[i] in {"-j", "-g"}
    {
      assert JumpAt(r, i);
    }
  }

  /** A rule of one of the five built-in chains that jumps to a CATTLE_ chain makes the table active. */
  lemma BuiltinJumpIsReported(lines: seq<string>, chain: string, jump: string, name: string)
    requires chain in {"INPUT", "FORWARD", "OUTPUT", "PREROUTING", "POSTROUTING"} && jump in {"-j", "-g"}
    requires BlankFree(name) && forall line :: line in lines ==> SUBSEP !in line
    requires "-A " + chain + " " + jump + " CATTLE_" + name in lines
    ensures Hooked(Parsed(lines))
  {
    var hook, words := "CATTLE_" + name, ["-A", chain, jump, "CATTLE_" + name];
    var line := "-A " + chain + " " + jump + " CATTLE_" + name;
    JoinedRule(chain, jump, hook);
    assert line == "-A " + chain + " " + jump + " " + hook;
    RuleWords(chain, jump, name);
    FieldsOfWords(words);
    var rules := Parsed(lines);
    var i :| 0 <= i < |lines| && lines[i] == line;
    assert rules[i] == words && words in rules;
    ParsedIsSeparatorFree(lines);
    JumpsMeans(rules, chain, hook);
    assert words[2] == jump && words[3] == hook && words[1] == chain && words[0] == "-A";
    assert Jumps(rules, chain, hook) by { assert JumpAt(words, 2); }
    HookIsLive(rules, chain, hook);
    HookedMeansLiveOrJumping(rules);
  }

  lemma HookIsLive(rules: seq<seq<string>>, chain: string, hook: string)
    requires chain in BUILTIN && Jumps(rules, chain, hook) && Cattle(hook)
    ensures LiveHook(rules)
  {
    var path := [chain, hook];
    assert IsJumpPath(rules, path) && path[|path| - 1] == hook;
  }

  lemma JoinedRule(chain: string, jump: string, hook: string)
    ensures Join(["-A", chain, jump, hook], ' ') == "-A " + chain + " " + jump + " " + hook
  {
    var words := ["-A", chain, jump, hook];
    assert words[1..] == [chain, jump, hook] && words[1..][1..] == [jump, hook] && words[1..][1..][1..] == [hook];
    assert Join([jump, hook], ' ') == jump + " " + hook;
    assert Join([chain, jump, hook], ' ') == chain + " " + (jump + " " + hook);
    assert Join(words, ' ') == "-A" + " " + (chain + " " + (jump + " " + hook));
    assert "-A " + chain + " " + jump + " " + hook == "-A" + " " + (chain + " " + (jump + " " + hook));
  }

  lemma RuleWords(chain: string, jump: string, name: string)
    requires chain in {"INPUT", "FORWARD", "OUTPUT", "PREROUTING", "POSTROUTING"} && jump in {"-j", "-g"}
    requires BlankFree(name)
    ensures forall w :: w in ["-A", chain, jump, "CATTLE_" + name] ==> w != "" && BlankFree(w)
    ensures Cattle("CATTLE_" + name)
  {
    var hook := "CATTLE_" + name;
    assert forall i :: 0 <= i < |hook| ==> hook[i] == if i < 7 then "CATTLE_"[i] else name[i - 7];
  }

  lemma {:induction false} FieldsAreParts(line: string, c: char)
    requires c !in line
    ensures forall f :: f in Fields(line) ==> c !in f
    decreases |line|
  {
    if line != "" {
      if Blank(line[0]) {
        FieldsAreParts(line[1..], c);
      } else {
        FieldsAreParts(line[WordEnd(line)..], c);
      }
    }
  }

  lemma ParsedIsSeparatorFree(lines: seq<string>)
    requires forall line :: line in lines ==> SUBSEP !in line
    ensures SeparatorFree(Parsed(lines))
  {
    forall r, f | r in Parsed(lines) && f in r ensures SUBSEP !in f {
      var i :| 0 <= i < |lines| && Parsed(lines)[i] == r;
      assert lines[i] in lines;
      FieldsAreParts(lines[i], SUBSEP);
    }
  }
}
