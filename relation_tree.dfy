/** The relation graph that `parse_pub_deps_file` builds: pass one groups the
    bare dependency names of every entry under `name(version)`, pass two
    rewrites every bare name `d` into `d(version)`. */
module RelationTree {
  import opened Common

  /** One element of the `packages` array of `flutter pub deps --json`. */
  datatype PackageEntry = PackageEntry(name: string, version: string, kind: string, dependencies: seq<string>)

  /** The relation tree as the Python dict holds it: the edges, and the keys in
      insertion order (the order in which pass two visits them). */
  datatype Graph = Graph(order: seq<string>, edges: map<string, seq<string>>)

  ghost predicate WellFormed(g: Graph) {
    NoDup(g.order) && forall k :: k in g.edges <==> k in g.order
  }

  ghost predicate HasEntryKey(es: seq<PackageEntry>, k: string) {
    exists j :: 0 <= j < |es| && es[j].dependencies != [] && Key(es[j].name, es[j].version) == k
  }

  // ---------------------------------------------------------------- pass one

  /** One iteration of the first loop on the relation tree: an entry with no
      dependencies adds nothing; otherwise its names are appended under its key,
      which is created (at the end of the key order) when new. */
  function AddEntry(g: Graph, e: PackageEntry): (r: Graph)
    requires WellFormed(g)
    ensures WellFormed(r)
    ensures |g.order| <= |r.order| && r.order[..|g.order|] == g.order
  {
    if e.dependencies == [] then g
    else
      var k := Key(e.name, e.version);
      if k in g.edges then Graph(g.order, g.edges[k := g.edges[k] + e.dependencies])
      else
        assert (g.order + [k])[..|g.order|] == g.order;
        Graph(g.order + [k], g.edges[k := e.dependencies])
  }

  /** The relation tree after pass one has handled every entry of `es`. */
  function Pass1(g: Graph, es: seq<PackageEntry>): (r: Graph)
    requires WellFormed(g)
    ensures WellFormed(r)
    ensures |g.order| <= |r.order| && r.order[..|g.order|] == g.order
    decreases |es|
  {
    if es == [] then g else AddEntry(Pass1(g, es[..|es| - 1]), es[|es| - 1])
  }

  /** `name_version_dict` after pass one: the last version written per name. */
  function NameIndex(es: seq<PackageEntry>): map<string, string>
    decreases |es|
  {
    if es == [] then map[]
    else NameIndex(es[..|es| - 1])[es[|es| - 1].name := es[|es| - 1].version]
  }

  /** `package_name` after pass one: the bare name of the last `root` entry,
      or the value it had before when there is none. */
  function RootName(current: string, es: seq<PackageEntry>): string
    decreases |es|
  {
    if es == [] then current
    else if es[|es| - 1].kind == "root" then es[|es| - 1].name
    else RootName(current, es[..|es| - 1])
  }

  /** Reference definition: the dependency names of all entries keyed `k`,
      concatenated in entry order. */
  function DepsOf(es: seq<PackageEntry>, k: string): seq<string>
    decreases |es|
  {
    if es == [] then []
    else
      var last := es[|es| - 1];
      DepsOf(es[..|es| - 1], k) + Contribution(last, k)
  }

  /** Pass one adds exactly one key per entry with a non-empty dependency list. */
  lemma {:induction false} Pass1Keys(g: Graph, es: seq<PackageEntry>)
    requires WellFormed(g)
    ensures forall k :: k in Pass1(g, es).edges <==> k in g.edges || HasEntryKey(es, k)
    decreases |es|
  {
    if es != [] {
      var init := es[..|es| - 1];
      Pass1Keys(g, init);
      HasEntryKeySnoc(es);
    }
  }

  lemma HasEntryKeySnoc(es: seq<PackageEntry>)
    requires es != []
    ensures var init, last := es[..|es| - 1], es[|es| - 1];
            forall k :: HasEntryKey(es, k) <==>
                        HasEntryKey(init, k) || (last.dependencies != [] && Key(last.name, last.version) == k)
  {
    var init := es[..|es| - 1];
    assert forall j :: 0 <= j < |init| ==> init[j] == es[j];
  }

  /** A key's list after pass one is its earlier list followed by the
      dependency names of every entry keyed so, in entry order. */
  lemma {:induction false} Pass1Edges(g: Graph, es: seq<PackageEntry>, k: string)
    requires WellFormed(g)
    ensures k in Pass1(g, es).edges ==>
              Pass1(g, es).edges[k] == (if k in g.edges then g.edges[k] else []) + DepsOf(es, k)
    decreases |es|
  {
    if es != [] && k in Pass1(g, es).edges {
      var init, last := es[..|es| - 1], es[|es| - 1];
      var p := Pass1(g, init);
      var before := if k in g.edges then g.edges[k] else [];
      AddEntryEdges(p, last, k);
      if k in p.edges {
        Pass1Edges(g, init, k);
        AppendAssoc(before, DepsOf(init, k), Contribution(last, k));
      } else {
        Pass1Keys(g, init);
        DepsOfAbsent(g, init, k);
        assert before == [] && DepsOf(init, k) == [];
      }
    }
  }

  /** The names entry `e` adds under key `k`. */
  function Contribution(e: PackageEntry, k: string): seq<string> {
    if Key(e.name, e.version) == k then e.dependencies else []
  }

  /** One entry appends its names under its own key and touches no other key. */
  lemma AddEntryEdges(g: Graph, e: PackageEntry, k: string)
    requires WellFormed(g)
    ensures k in AddEntry(g, e).edges <==> k in g.edges || Contribution(e, k) != []
    ensures k in AddEntry(g, e).edges ==>
              AddEntry(g, e).edges[k] == (if k in g.edges then g.edges[k] else []) + Contribution(e, k)
  {
    if k !in g.edges && Contribution(e, k) != [] {
      assert [] + e.dependencies == e.dependencies;
    }
  }

  /** A key that is still absent after pass one over `es` collected nothing. */
  lemma {:induction false} DepsOfAbsent(g: Graph, es: seq<PackageEntry>, k: string)
    requires WellFormed(g)
    requires k !in Pass1(g, es).edges
    ensures DepsOf(es, k) == []
    decreases |es|
  {
    if es != [] {
      var last := es[|es| - 1];
      DepsOfAbsent(g, es[..|es| - 1], k);
      assert Key(last.name, last.version) == k ==> last.dependencies == [];
    }
  }

  /** `name_version_dict` holds exactly the names seen, each at the version of
      the last entry with that name. */
  lemma NameIndexLastWins(es: seq<PackageEntry>)
    ensures forall n :: n in NameIndex(es) <==> exists j :: 0 <= j < |es| && es[j].name == n
    ensures forall n :: n in NameIndex(es) ==>
              exists j :: 0 <= j < |es| && es[j].name == n && NameIndex(es)[n] == es[j].version
                          && forall j' :: j < j' < |es| ==> es[j'].name != n
  {
    forall n ensures n in NameIndex(es) <==> exists j :: 0 <= j < |es| && es[j].name == n {
      NameIndexHas(es, n);
    }
    forall n | n in NameIndex(es)
      ensures exists j :: 0 <= j < |es| && es[j].name == n && NameIndex(es)[n] == es[j].version
                          && forall j' :: j < j' < |es| ==> es[j'].name != n
    {
      NameIndexValue(es, n);
    }
  }

  lemma {:induction false} NameIndexHas(es: seq<PackageEntry>, n: string)
    ensures n in NameIndex(es) <==> exists j :: 0 <= j < |es| && es[j].name == n
    decreases |es|
  {
    if es != [] {
      var init := es[..|es| - 1];
      NameIndexHas(init, n);
      if es[|es| - 1].name != n {
        if exists j :: 0 <= j < |es| && es[j].name == n {
          var j :| 0 <= j < |es| && es[j].name == n;
          assert init[j] == es[j];
        }
        if n in NameIndex(init) {
          var j :| 0 <= j < |init| && init[j].name == n;
          assert init[j] == es[j];
        }
      }
    }
  }

  lemma {:induction false} NameIndexValue(es: seq<PackageEntry>, n: string)
    requires n in NameIndex(es)
    ensures exists j :: 0 <= j < |es| && es[j].name == n && NameIndex(es)[n] == es[j].version
                        && forall j' :: j < j' < |es| ==> es[j'].name != n
    decreases |es|
  {
    var init, last := es[..|es| - 1], es[|es| - 1];
    if last.name != n {
      NameIndexValue(init, n);
      var j :| 0 <= j < |init| && init[j].name == n && NameIndex(init)[n] == init[j].version
               && forall j' :: j < j' < |init| ==> init[j'].name != n;
      assert es[j] == init[j];
      assert forall j' :: j < j' < |es| ==> es[j'].name != n by {
        forall j' | j < j' < |es| ensures es[j'].name != n {
          if j' < |init| { assert es[j'] == init[j']; }
        }
      }
    }
  }

  /** `package_name` ends as the bare name of the last `root` entry, and keeps
      its earlier value when no entry is a root. */
  lemma RootNameLastRoot(current: string, es: seq<PackageEntry>)
    ensures (forall j :: 0 <= j < |es| ==> es[j].kind != "root") ==> RootName(current, es) == current
    ensures (exists j :: 0 <= j < |es| && es[j].kind == "root") ==>
              exists j :: 0 <= j < |es| && es[j].kind == "root" && RootName(current, es) == es[j].name
                          && forall j' :: j < j' < |es| ==> es[j'].kind != "root"
  {
    var j := LastRoot(es);
    RootNameAt(current, es);
    if exists j' :: 0 <= j' < |es| && es[j'].kind == "root" {
      var j' :| 0 <= j' < |es| && es[j'].kind == "root";
      assert j >= j';
    }
  }

  /** Position of the last `root` entry, -1 when there is none. */
  function LastRoot(es: seq<PackageEntry>): (j: int)
    ensures -1 <= j < |es|
    ensures j >= 0 ==> es[j].kind == "root"
    ensures forall j' :: j < j' < |es| ==> es[j'].kind != "root"
    decreases |es|
  {
    if es == [] then -1
    else if es[|es| - 1].kind == "root" then |es| - 1
    else
      var j := LastRoot(es[..|es| - 1]);
      assert forall j' :: j < j' < |es| - 1 ==> es[j'] == es[..|es| - 1][j'];
      j
  }

  lemma {:induction false} RootNameAt(current: string, es: seq<PackageEntry>)
    ensures RootName(current, es) == if LastRoot(es) < 0 then current else es[LastRoot(es)].name
    decreases |es|
  {
    if es != [] && es[|es| - 1].kind != "root" {
      var init := es[..|es| - 1];
      RootNameAt(current, init);
      if LastRoot(init) >= 0 {
        assert init[LastRoot(init)] == es[LastRoot(init)];
      }
    }
  }

  // ---------------------------------------------------------------- pass two

  /** The rewritten list of one key, or None when some name has no version in
      `idx` (the KeyError of line 97). */
  function Resolve(ds: seq<string>, idx: map<string, string>): (r: Option<seq<string>>)
    ensures r.Some? <==> forall d :: d in ds ==> d in idx
    ensures r.Some? ==> |r.value| == |ds| && forall i :: 0 <= i < |ds| ==> r.value[i] == Key(ds[i], idx[ds[i]])
    decreases |ds|
  {
    if ds == [] then Some([])
    else if ds[0] !in idx then None
    else match Resolve(ds[1..], idx)
      case None => None
      case Some(rest) => Some([Key(ds[0], idx[ds[0]])] + rest)
  }

  /** Position, from `i` on, of the first key whose list cannot be resolved
      (the length of the key order when there is none). */
  function FirstUnresolved(g: Graph, idx: map<string, string>, i: nat): (f: nat)
    requires WellFormed(g) && i <= |g.order|
    ensures i <= f <= |g.order|
    ensures forall m :: i <= m < f ==> Resolve(g.edges[g.order[m]], idx).Some?
    ensures f < |g.order| ==> Resolve(g.edges[g.order[f]], idx).None?
    decreases |g.order| - i
  {
    if i == |g.order| || Resolve(g.edges[g.order[i]], idx).None? then i
    else FirstUnresolved(g, idx, i + 1)
  }

  /** Position of a key in the key order. */
  function PositionOf(order: seq<string>, k: string): (m: nat)
    requires k in order
    ensures m < |order| && order[m] == k
  {
    if order[0] == k then 0 else 1 + PositionOf(order[1..], k)
  }

  /** The second loop: keys are rewritten in key order until the first one
      whose list cannot be resolved; the KeyError ends the pass, so that key
      and every later one keep their lists. */
  function Pass2(g: Graph, idx: map<string, string>): (r: Graph)
    requires WellFormed(g)
    ensures WellFormed(r) && r.order == g.order && r.edges.Keys == g.edges.Keys
  {
    Graph(g.order, map k | k in g.edges :: RewrittenAt(g, idx, PositionOf(g.order, k)))
  }

  /** The list pass two leaves at position `m` of the key order. */
  function RewrittenAt(g: Graph, idx: map<string, string>, m: nat): seq<string>
    requires WellFormed(g) && m < |g.order|
  {
    if m < FirstUnresolved(g, idx, 0) then Resolve(g.edges[g.order[m]], idx).value else g.edges[g.order[m]]
  }

  /** In a key order without duplicates a key's position is the only one
      holding it. */
  lemma PositionOfUnique(order: seq<string>, m: nat)
    requires NoDup(order) && m < |order|
    ensures PositionOf(order, order[m]) == m
  {
  }

  /** The key at position `m` of the key order holds its list after pass two. */
  lemma Pass2At(g: Graph, idx: map<string, string>, m: nat)
    requires WellFormed(g) && m < |g.order|
    ensures Pass2(g, idx).edges[g.order[m]] == RewrittenAt(g, idx, m)
  {
    PositionOfUnique(g.order, m);
  }

  /** Pass two rewrites the key at position `m` when it lies before the first
      unresolvable one, each name `d` becoming `d(version)` with length and
      order kept, and otherwise leaves it with its bare names. */
  lemma Pass2Effect(g: Graph, idx: map<string, string>, m: nat)
    requires WellFormed(g) && m < |g.order|
    ensures var ds, r := g.edges[g.order[m]], Pass2(g, idx).edges[g.order[m]];
            m < FirstUnresolved(g, idx, 0) ==>
              |r| == |ds| && forall n :: 0 <= n < |ds| ==> ds[n] in idx && r[n] == Key(ds[n], idx[ds[n]])
    ensures FirstUnresolved(g, idx, 0) <= m ==> Pass2(g, idx).edges[g.order[m]] == g.edges[g.order[m]]
  {
    Pass2At(g, idx, m);
  }

  /** The state of the second loop before position `j`: the keys before `j`
      hold their rewritten lists, the others their lists from pass one. */
  ghost predicate RewrittenBefore(g: Graph, idx: map<string, string>, e: map<string, seq<string>>, j: nat)
    requires WellFormed(g)
  {
    && j <= FirstUnresolved(g, idx, 0)
    && e.Keys == g.edges.Keys
    && (forall m :: 0 <= m < j ==> e[g.order[m]] == RewrittenAt(g, idx, m))
    && (forall m :: j <= m < |g.order| ==> e[g.order[m]] == g.edges[g.order[m]])
  }

  /** A resolvable key at `j` lies before the first unresolvable one; rewriting
      it moves the loop on to `j + 1`. */
  lemma RewriteStep(g: Graph, idx: map<string, string>, e: map<string, seq<string>>, j: nat)
    requires WellFormed(g) && j < |g.order| && RewrittenBefore(g, idx, e, j)
    requires Resolve(e[g.order[j]], idx).Some?
    ensures RewrittenBefore(g, idx, e[g.order[j] := Resolve(e[g.order[j]], idx).value], j + 1)
  {
    var f := FirstUnresolved(g, idx, 0);
    assert j < f;
    var e' := e[g.order[j] := Resolve(e[g.order[j]], idx).value];
    forall m | 0 <= m < |g.order| && m != j ensures e'[g.order[m]] == e[g.order[m]] {
      assert g.order[m] != g.order[j];
    }
  }

  /** An unresolvable key at `j` is the first one. */
  lemma RewriteStop(g: Graph, idx: map<string, string>, e: map<string, seq<string>>, j: nat)
    requires WellFormed(g) && j < |g.order| && RewrittenBefore(g, idx, e, j)
    requires Resolve(e[g.order[j]], idx).None?
    ensures j == FirstUnresolved(g, idx, 0)
  {
  }

  /** Once the loop has stopped at the first unresolvable key (or at the end),
      the lists are those of pass two. */
  lemma Pass2Positions(g: Graph, idx: map<string, string>, e: map<string, seq<string>>, j: nat)
    requires WellFormed(g) && RewrittenBefore(g, idx, e, j) && j == FirstUnresolved(g, idx, 0)
    ensures Graph(g.order, e) == Pass2(g, idx)
  {
    var r := Pass2(g, idx).edges;
    forall k | k in e ensures e[k] == r[k] {
      var m := PositionOf(g.order, k);
      assert r[k] == RewrittenAt(g, idx, m);
    }
    assert e.Keys == r.Keys;
  }

  /** A whole run of parse_pub_deps_file on an empty tree whose every dependency
      name is itself an entry: one key per entry with dependencies, each holding
      the concatenated dependency names of its entries, each as `d(version)`
      with the last version seen for `d`. */
  lemma ParsedFromEmpty(es: seq<PackageEntry>)
    requires forall j, n :: 0 <= j < |es| && 0 <= n < |es[j].dependencies| ==>
               exists j' :: 0 <= j' < |es| && es[j'].name == es[j].dependencies[n]
    ensures var r := Pass2(Pass1(Graph([], map[]), es), NameIndex(es));
            && WellFormed(r)
            && (forall k :: k in r.edges <==> HasEntryKey(es, k))
            && (forall k :: k in r.edges ==> Resolve(DepsOf(es, k), NameIndex(es)) == Some(r.edges[k]))
  {
    var g0 := Graph([], map[]);
    var p := Pass1(g0, es);
    var idx := NameIndex(es);
    Pass1Keys(g0, es);
    Pass1Resolvable(es);
    AllResolvable(p, idx);
    var r := Pass2(p, idx);
    forall k | k in r.edges
      ensures Resolve(DepsOf(es, k), idx) == Some(r.edges[k])
    {
      var m :| 0 <= m < |p.order| && p.order[m] == k;
      Pass2At(p, idx, m);
    }
  }

  /** When every list resolves, pass two rewrites every key. */
  lemma AllResolvable(g: Graph, idx: map<string, string>)
    requires WellFormed(g)
    requires forall k :: k in g.edges ==> Resolve(g.edges[k], idx).Some?
    ensures FirstUnresolved(g, idx, 0) == |g.order|
  {
    assert forall m :: 0 <= m < |g.order| ==> g.order[m] in g.edges;
  }

  /** On an empty start and a closed set of names, every list pass one builds
      is the key's collected names, and all of them resolve. */
  lemma Pass1Resolvable(es: seq<PackageEntry>)
    requires forall j, n :: 0 <= j < |es| && 0 <= n < |es[j].dependencies| ==>
               exists j' :: 0 <= j' < |es| && es[j'].name == es[j].dependencies[n]
    ensures forall k :: k in Pass1(Graph([], map[]), es).edges ==>
              Pass1(Graph([], map[]), es).edges[k] == DepsOf(es, k)
              && Resolve(DepsOf(es, k), NameIndex(es)).Some?
  {
    var g0 := Graph([], map[]);
    NameIndexLastWins(es);
    forall k | k in Pass1(g0, es).edges
      ensures Pass1(g0, es).edges[k] == DepsOf(es, k) && Resolve(DepsOf(es, k), NameIndex(es)).Some?
    {
      Pass1Edges(g0, es, k);
      DepsOfNames(es, k);
    }
  }

  /** Every name collected under a key comes from the dependency list of some entry. */
  lemma {:induction false} DepsOfNames(es: seq<PackageEntry>, k: string)
    ensures forall d :: d in DepsOf(es, k) ==>
              exists j, n :: 0 <= j < |es| && 0 <= n < |es[j].dependencies| && es[j].dependencies[n] == d
    decreases |es|
  {
    if es != [] {
      var init := es[..|es| - 1];
      DepsOfNames(init, k);
      forall d | d in DepsOf(es, k)
        ensures exists j, n :: 0 <= j < |es| && 0 <= n < |es[j].dependencies| && es[j].dependencies[n] == d
      {
        if d in DepsOf(init, k) {
          var j, n :| 0 <= j < |init| && 0 <= n < |init[j].dependencies| && init[j].dependencies[n] == d;
          assert es[j] == init[j];
        } else {
          var last := es[|es| - 1];
          var n :| 0 <= n < |last.dependencies| && last.dependencies[n] == d;
        }
      }
    }
  }
}
