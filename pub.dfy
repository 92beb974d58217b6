/** The `Pub` package-manager plugin: the instance state that its parsing
    methods fill in, and those methods with their loops. */
module PubPlugin {
  import opened Common
  import opened RelationTree
  import opened ScopeFilter
  import opened OssInformation

  class Pub {
    /** The package-manager name the plugin registers with (`const.PUB`); it
        prefixes display names and is handed to `get_url_to_purl`. */
    const manager: string
    /** `relation_tree`: `name(version)` to the package's dependencies. */
    var relationTree: map<string, seq<string>>
    /** The keys of `relation_tree` in insertion order, which the Python dict
        keeps and pass two follows. */
    var treeOrder: seq<string>
    /** `total_dep_list`: the names of the non-development dependencies. */
    var totalDepList: seq<string>
    /** `purl_dict`: `name(version)` to the package's purl. */
    var purlDict: map<string, string>
    /** `package_name`: the name recorded from the root entry. */
    var packageName: string
    /** `direct_dep`: whether rows are classified and given dependency lists. */
    var directDep: bool

    ghost predicate Valid()
      reads this
    {
      WellFormed(Graph(treeOrder, relationTree))
    }

    function Relation(): Graph
      reads this
    {
      Graph(treeOrder, relationTree)
    }

    function State(): PluginState
      reads this
    {
      PluginState(manager, totalDepList, packageName, directDep, relationTree)
    }

    /** A fresh plugin, with the empty state the base class gives it. */
    constructor (manager: string)
      ensures Valid()
      ensures this.manager == manager
      ensures relationTree == map[] && treeOrder == [] && totalDepList == [] && purlDict == map[]
      ensures packageName == "" && !directDep
    {
      this.manager := manager;
      relationTree, treeOrder := map[], [];
      totalDepList, purlDict := [], map[];
      packageName, directDep := "", false;
    }

    /** Line 179: the direct/transitive classification is switched on. */
    method EnableDirectDependencies()
      modifies this`directDep
      ensures directDep
    {
      directDep := true;
    }

    /** `parse_pub_deps_file` on the decoded `packages` array: pass one, then
        pass two with the name-to-version index pass one built. */
    method ParsePubDepsFile(entries: seq<PackageEntry>)
      requires Valid()
      modifies this`relationTree, this`treeOrder, this`packageName
      ensures Valid()
      ensures Relation() == Pass2(Pass1(old(Relation()), entries), NameIndex(entries))
      ensures packageName == RootName(old(packageName), entries)
    {
      var nameVersion := CollectRelations(entries);
      ResolveRelations(nameVersion);
    }

    /** Lines 83-92: the first loop over the entries. */
    method CollectRelations(entries: seq<PackageEntry>) returns (nameVersion: map<string, string>)
      requires Valid()
      modifies this`relationTree, this`treeOrder, this`packageName
      ensures Valid()
      ensures Relation() == Pass1(old(Relation()), entries)
      ensures nameVersion == NameIndex(entries)
      ensures packageName == RootName(old(packageName), entries)
    {
      nameVersion := map[];
      var i := 0;
      while i < |entries|
        invariant 0 <= i <= |entries|
        invariant Valid()
        invariant Relation() == Pass1(old(Relation()), entries[..i])
        invariant nameVersion == NameIndex(entries[..i])
        invariant packageName == RootName(old(packageName), entries[..i])
      {
        var p := entries[i];
        assert entries[..i + 1][..i] == entries[..i];
        if p.kind == "root" {
          packageName := p.name;
        }
        nameVersion := nameVersion[p.name := p.version];
        AddPackage(p);
        i := i + 1;
      }
      assert entries[..|entries|] == entries;
    }

    /** Lines 87-92 on one entry: its names are appended under `name(version)`,
        the key being created first when it is new. */
    method AddPackage(p: PackageEntry)
      requires Valid()
      modifies this`relationTree, this`treeOrder
      ensures Valid()
      ensures Relation() == AddEntry(old(Relation()), p)
    {
      if p.dependencies == [] {
        return;
      }
      var depKey := Key(p.name, p.version);
      if depKey !in relationTree {
        relationTree := relationTree[depKey := []];
        treeOrder := treeOrder + [depKey];
        MapUpdateTwice(old(relationTree), depKey, [], p.dependencies);
        assert [] + p.dependencies == p.dependencies;
      }
      relationTree := relationTree[depKey := relationTree[depKey] + p.dependencies];
    }

    /** Lines 94-102: the second loop, over the keys in insertion order; the
        first name without a version raises KeyError, which ends the parse. */
    method ResolveRelations(nameVersion: map<string, string>)
      requires Valid()
      modifies this`relationTree
      ensures Valid()
      ensures Relation() == Pass2(old(Relation()), nameVersion)
    {
      ghost var g0 := Relation();
      var order, tree := treeOrder, relationTree;
      var j := 0;
      while j < |order|
        invariant 0 <= j <= |order| && order == g0.order
        invariant RewrittenBefore(g0, nameVersion, tree, j)
      {
        var key := order[j];
        var tmpDep := ResolveDependencies(tree[key], nameVersion);
        if tmpDep.None? {
          RewriteStop(g0, nameVersion, tree, j);
          break;
        }
        RewriteStep(g0, nameVersion, tree, j);
        tree := tree[key := tmpDep.value];
        j := j + 1;
      }
      Pass2Positions(g0, nameVersion, tree, j);
      relationTree := tree;
      assert Relation() == Graph(g0.order, tree);
    }

    /** Lines 96-98: the names of one key, each looked up in
        `name_version_dict`; the first missing name raises KeyError (None). */
    static method ResolveDependencies(deps: seq<string>, nameVersion: map<string, string>)
      returns (r: Option<seq<string>>)
      ensures r == Resolve(deps, nameVersion)
    {
      var tmpDep: seq<string> := [];
      var n := 0;
      while n < |deps|
        invariant 0 <= n <= |deps|
        invariant |tmpDep| == n
        invariant forall m :: 0 <= m < n ==> deps[m] in nameVersion && tmpDep[m] == Key(deps[m], nameVersion[deps[m]])
      {
        if deps[n] !in nameVersion {
          return None;
        }
        tmpDep := tmpDep + [Key(deps[n], nameVersion[deps[n]])];
        n := n + 1;
      }
      var resolved := Resolve(deps, nameVersion);
      assert resolved.value == tmpDep;
      r := Some(tmpDep);
    }

    /** `parse_no_dev_command_file` on the text of the compact listing. The
        order of the resulting list is that of a Python set, so only its
        elements and their uniqueness are stated. */
    method ParseNoDevCommandFile(pubDeps: string)
      modifies this`totalDepList
      ensures NoDup(totalDepList)
      ensures forall x :: x in totalDepList <==> x in old(totalDepList) || x in Captures(SplitLines(pubDeps))
    {
      var lines := SplitLines(pubDeps);
      var deps := totalDepList;
      var i := 0;
      while i < |lines|
        invariant 0 <= i <= |lines|
        invariant deps == old(totalDepList) + Captures(lines[..i])
      {
        assert lines[..i + 1][..i] == lines[..i];
        assert Captures(lines[..i + 1]) == Captures(lines[..i]) + LineCapture(lines[i]);
        AppendAssoc(old(totalDepList), Captures(lines[..i]), LineCapture(lines[i]));
        var reResult := FirstCapture(lines[i]);
        if reResult.Some? {
          deps := deps + [reResult.value];
        }
        i := i + 1;
      }
      assert lines[..|lines|] == lines;
      assert forall x :: x in deps <==> x in old(totalDepList) || x in Captures(lines);
      totalDepList := Dedup(deps);
    }

    /** `parse_oss_information` on the decoded catalog, up to line 163 (before
        the dependency lists are rewritten into purls). */
    method ParseOssInformation(catalog: seq<CatalogRecord>, env: Collaborators) returns (sheetList: seq<Row>)
      modifies this`purlDict
      ensures sheetList == Rows(State(), env, catalog)
      ensures purlDict == Apply(old(purlDict), Writes(State(), env, catalog))
    {
      ghost var st := State();
      sheetList := [];
      var i := 0;
      while i < |catalog|
        invariant 0 <= i <= |catalog| && State() == st
        invariant sheetList + Rows(st, env, catalog[i..]) == Rows(st, env, catalog)
        invariant Apply(purlDict, Writes(st, env, catalog[i..])) == Apply(old(purlDict), Writes(st, env, catalog))
      {
        assert catalog[i..][1..] == catalog[i + 1..];
        ghost var before := purlDict;
        var o := ProcessRecord(catalog[i], env);
        match o {
          case Raised(w) =>
            assert Rows(st, env, catalog[i..]) == [];
            assert Writes(st, env, catalog[i..]) == match w { case None => [] case Some(w) => [w] };
            assert purlDict == Apply(before, Writes(st, env, catalog[i..]));
            return;
          case Skipped =>
          case Emitted(row, _) =>
            AppendAssoc(sheetList, [row], Rows(st, env, catalog[i + 1..]));
            sheetList := sheetList + [row];
        }
        i := i + 1;
      }
    }

    /** One pass of the loop body of lines 116-161 on one record: the outcome
        `Process` describes, with the purl write of line 128 carried out. */
    method ProcessRecord(rec: CatalogRecord, env: Collaborators) returns (o: Outcome)
      modifies this`purlDict
      ensures o == Process(State(), env, rec)
      ensures purlDict == match WriteOf(o) { case None => old(purlDict) case Some(w) => old(purlDict)[w.key := w.purl] }
    {
      if rec.name.None? { return Raised(None); }
      var ossOriginName := rec.name.value;
      if ossOriginName !in totalDepList {
        return Skipped;
      }
      var ossName := manager + ":" + ossOriginName;
      if rec.version.None? { return Raised(None); }
      var ossVersion := rec.version.value;
      var homepage: string;
      match rec.homepage {
        case Absent => return Raised(None);
        case Text(h) => homepage := h;
        case Null =>
          match rec.repository {
            case Absent => return Raised(None);
            case Text(r) => homepage := r;
            case Null => homepage := "";
          }
      }
      var dnLoc := DownloadUrl + ossOriginName + "/versions/" + ossVersion;
      var purl := env.toPurl(dnLoc, manager);
      var key := Key(ossOriginName, ossVersion);
      purlDict := purlDict[key := purl];
      var write := PurlWrite(key, purl);
      if rec.license.None? { return Raised(Some(write)); }
      var licenseName := env.scanLicense(rec.license.value);
      var comment := "";
      var depsList: seq<string> := [];
      if directDep {
        if packageName == key {
          comment := "root package";
        } else if rec.isDirectDependency.None? {
          return Raised(Some(write));
        } else if rec.isDirectDependency.value {
          comment := "direct";
        } else {
          comment := "transitive";
        }
        if key in relationTree {
          depsList := relationTree[key];
        }
      }
      o := Emitted(Row(purl, ossName, ossVersion, licenseName, dnLoc, homepage, "", "", comment, depsList), write);
    }
  }

  /** Line 85 records the root's bare name and line 149 compares it with
      `name(version)`: as long as no package name holds a `(`, as written no
      row is ever classified as the root package. */
  lemma NoRootCommentForPlainNames(current: string, es: seq<PackageEntry>, st: PluginState,
                                   env: Collaborators, rec: CatalogRecord)
    requires '(' !in current && forall j :: 0 <= j < |es| ==> '(' !in es[j].name
    requires st.packageName == RootName(current, es)
    ensures Process(st, env, rec).Emitted? ==> Process(st, env, rec).row.comment != "root package"
  {
    RootNameLastRoot(current, es);
    ProcessSpec(st, env, rec);
    if rec.name.Some? && rec.version.Some? {
      var key := Key(rec.name.value, rec.version.value);
      assert key[|rec.name.value|] == '(';
      assert '(' in key;
      assert st.packageName != key;
    }
  }
}
