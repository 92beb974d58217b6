/** The rows that `parse_oss_information` builds from the metadata catalog
    written by `flutter_oss_licenses` (a JSON array, one object per package),
    together with the `name(version)` to purl entries it records on the way. */
module OssInformation {
  import opened Common

  /** Base of every download location (the class attribute `dn_url`). */
  const DownloadUrl := "https://pub.dev/packages/"

  /** A JSON value that may be a string, `null`, or missing from the object
      altogether (reading a missing key raises KeyError). */
  datatype Nullable = Absent | Null | Text(text: string)

  /** One catalog object. An `Option` field is None when its key is missing. */
  datatype CatalogRecord = CatalogRecord(
    name: Option<string>,
    version: Option<string>,
    homepage: Nullable,
    repository: Nullable,
    license: Option<string>,
    isDirectDependency: Option<bool>)

  /** One row of the sheet: the ten columns, two of them always empty. */
  datatype Row = Row(
    purl: string,
    ossName: string,
    version: string,
    license: string,
    downloadLocation: string,
    homepage: string,
    reserved1: string,
    reserved2: string,
    comment: string,
    deps: seq<string>)

  /** The plugin fields that the catalog pass reads. */
  datatype PluginState = PluginState(
    manager: string,
    scope: seq<string>,
    packageName: string,
    directDep: bool,
    tree: map<string, seq<string>>)

  /** The collaborators the pass calls: `get_url_to_purl` and the license
      scanner (its result passes through lines 139-142 unchanged). */
  datatype Collaborators = Collaborators(toPurl: (string, string) -> string, scanLicense: string -> string)

  /** One write `purl_dict[key] = purl`. */
  datatype PurlWrite = PurlWrite(key: string, purl: string)

  /** What the loop body does with one record: skip it (`continue`), raise
      (possibly after the purl write of line 128), or emit a row. */
  datatype Outcome = Skipped | Raised(partial: Option<PurlWrite>) | Emitted(row: Row, write: PurlWrite)

  predicate InScope(scope: seq<string>, rec: CatalogRecord) {
    rec.name.Some? && rec.name.value in scope
  }

  /** The record gets as far as line 128: version, homepage and (when needed)
      repository keys all present. */
  predicate ReachesPurl(rec: CatalogRecord) {
    rec.version.Some? && !rec.homepage.Absent? && !(rec.homepage.Null? && rec.repository.Absent?)
  }

  /** Reference list of the key reads that raise for an in-scope record. */
  predicate MissingKey(st: PluginState, rec: CatalogRecord)
    requires rec.name.Some?
  {
    || !ReachesPurl(rec)
    || rec.license.None?
    || (st.directDep && st.packageName != Key(rec.name.value, rec.version.value) && rec.isDirectDependency.None?)
  }

  function WriteOf(o: Outcome): Option<PurlWrite> {
    match o
    case Skipped => None
    case Raised(w) => w
    case Emitted(_, w) => Some(w)
  }

  /** The homepage column: `homepage`, else `repository` when `homepage` is
      null, else the empty string; None when a key it reads is missing. */
  function Homepage(homepage: Nullable, repository: Nullable): Option<string> {
    match homepage
    case Absent => None
    case Text(h) => Some(h)
    case Null =>
      match repository
      case Absent => None
      case Text(r) => Some(r)
      case Null => Some("")
  }

  /** The comment column, or None when `isDirectDependency` is read and missing. */
  function Comment(st: PluginState, key: string, isDirect: Option<bool>): Option<string> {
    if !st.directDep then Some("")
    else if st.packageName == key then Some("root package")
    else match isDirect
      case None => None
      case Some(b) => Some(if b then "direct" else "transitive")
  }

  /** One pass of the loop body of lines 116-161. */
  function Process(st: PluginState, env: Collaborators, rec: CatalogRecord): Outcome
  {
    if rec.name.None? then Raised(None)
    else
      var name := rec.name.value;
      if name !in st.scope then Skipped
      else if rec.version.None? then Raised(None)
      else
        var version := rec.version.value;
        match Homepage(rec.homepage, rec.repository)
        case None => Raised(None)
        case Some(homepage) =>
          var dnLoc := DownloadUrl + name + "/versions/" + version;
          var key := Key(name, version);
          var write := PurlWrite(key, env.toPurl(dnLoc, st.manager));
          if rec.license.None? then Raised(Some(write))
          else
            var license := env.scanLicense(rec.license.value);
            match Comment(st, key, rec.isDirectDependency)
            case None => Raised(Some(write))
            case Some(comment) =>
              var deps := if st.directDep && key in st.tree then st.tree[key] else [];
              Emitted(Row(write.purl, st.manager + ":" + name, version, license, dnLoc, homepage, "", "", comment, deps), write)
  }

  /** A record that does not raise is skipped exactly when it is out of scope. */
  lemma ProcessKinds(st: PluginState, env: Collaborators, rec: CatalogRecord)
    requires !Process(st, env, rec).Raised?
    ensures Process(st, env, rec).Skipped? <==> !InScope(st.scope, rec)
    ensures Process(st, env, rec).Emitted? <==> InScope(st.scope, rec)
  {
  }

  /** What one pass of the loop body does: a record is skipped exactly when its
      name is present and out of scope; it raises when its name is missing or a
      key read later is; the purl write happens exactly when line 128 is
      reached; an emitted row holds the columns the code assembles. */
  lemma ProcessSpec(st: PluginState, env: Collaborators, rec: CatalogRecord)
    ensures var o := Process(st, env, rec);
            o.Skipped? <==> rec.name.Some? && rec.name.value !in st.scope
    ensures var o := Process(st, env, rec);
            o.Raised? <==> rec.name.None? || (InScope(st.scope, rec) && MissingKey(st, rec))
    ensures var o := Process(st, env, rec);
            WriteOf(o).Some? <==> InScope(st.scope, rec) && ReachesPurl(rec)
    ensures var o := Process(st, env, rec);
            WriteOf(o).Some? ==>
              var name, version := rec.name.value, rec.version.value;
              WriteOf(o).value == PurlWrite(Key(name, version), env.toPurl(DownloadUrl + name + "/versions/" + version, st.manager))
    ensures var o := Process(st, env, rec);
            o.Emitted? ==>
              var name, version, key := rec.name.value, rec.version.value, Key(rec.name.value, rec.version.value);
              && o.row.purl == o.write.purl
              && o.row.ossName == st.manager + ":" + name
              && o.row.version == version
              && o.row.license == env.scanLicense(rec.license.value)
              && o.row.downloadLocation == DownloadUrl + name + "/versions/" + version
              && o.row.homepage == (if rec.homepage.Text? then rec.homepage.text
                                    else if rec.repository.Text? then rec.repository.text else "")
              && o.row.reserved1 == "" && o.row.reserved2 == ""
              && (!st.directDep ==> o.row.comment == "" && o.row.deps == [])
              && (st.directDep ==> (o.row.comment == "root package" <==> st.packageName == key))
              && (st.directDep && st.packageName != key ==>
                    (o.row.comment == "direct" <==> rec.isDirectDependency == Some(true))
                    && (o.row.comment == "transitive" <==> rec.isDirectDependency == Some(false)))
              && (st.directDep ==> o.row.deps == if key in st.tree then st.tree[key] else [])
  {
  }

  // ------------------------------------------------------------ the whole loop

  /** The sheet list at line 163: the rows of the records handled before the
      first one that raises (the try of line 112 encloses the whole loop). */
  function Rows(st: PluginState, env: Collaborators, recs: seq<CatalogRecord>): seq<Row>
    decreases |recs|
  {
    if recs == [] then []
    else match Process(st, env, recs[0])
      case Raised(_) => []
      case Skipped => Rows(st, env, recs[1..])
      case Emitted(row, _) => [row] + Rows(st, env, recs[1..])
  }

  /** The writes to `purl_dict`, in execution order, up to the first raise. */
  function Writes(st: PluginState, env: Collaborators, recs: seq<CatalogRecord>): seq<PurlWrite>
    decreases |recs|
  {
    if recs == [] then []
    else match Process(st, env, recs[0])
      case Raised(None) => []
      case Raised(Some(w)) => [w]
      case Skipped => Writes(st, env, recs[1..])
      case Emitted(_, w) => [w] + Writes(st, env, recs[1..])
  }

  /** The dictionary after a series of writes. */
  function Apply(pd: map<string, string>, ws: seq<PurlWrite>): (r: map<string, string>)
    ensures forall k :: k in r <==> k in pd || exists n :: 0 <= n < |ws| && ws[n].key == k
    decreases |ws|
  {
    if ws == [] then pd
    else
      var r := Apply(pd[ws[0].key := ws[0].purl], ws[1..]);
      assert forall n :: 0 < n < |ws| ==> ws[n] == ws[1..][n - 1];
      r
  }

  /** Position of the first record whose processing raises (the length of the
      catalog when none does). */
  function FirstRaise(st: PluginState, env: Collaborators, recs: seq<CatalogRecord>): (k: nat)
    ensures k <= |recs|
    ensures forall j :: 0 <= j < k ==> !Process(st, env, recs[j]).Raised?
    ensures k < |recs| ==> Process(st, env, recs[k]).Raised?
    decreases |recs|
  {
    if recs == [] || Process(st, env, recs[0]).Raised? then 0
    else
      var k := FirstRaise(st, env, recs[1..]);
      assert forall j :: 0 < j <= |recs[1..]| ==> recs[j] == recs[1..][j - 1];
      1 + k
  }

  /** The in-scope records, in catalog order. */
  function Qualifying(scope: seq<string>, recs: seq<CatalogRecord>): (q: seq<CatalogRecord>)
    ensures |q| <= |recs|
    decreases |recs|
  {
    if recs == [] then []
    else (if InScope(scope, recs[0]) then [recs[0]] else []) + Qualifying(scope, recs[1..])
  }

  /** The in-scope records the loop handles before it raises, in catalog order. */
  function Handled(st: PluginState, env: Collaborators, recs: seq<CatalogRecord>): seq<CatalogRecord>
    decreases |recs|
  {
    if recs == [] || Process(st, env, recs[0]).Raised? then []
    else (if InScope(st.scope, recs[0]) then [recs[0]] else []) + Handled(st, env, recs[1..])
  }

  /** The handled records are the in-scope records before the first raising one. */
  lemma {:induction false} HandledQualifying(st: PluginState, env: Collaborators, recs: seq<CatalogRecord>)
    ensures Handled(st, env, recs) == Qualifying(st.scope, recs[..FirstRaise(st, env, recs)])
    decreases |recs|
  {
    if recs != [] && !Process(st, env, recs[0]).Raised? {
      HandledQualifying(st, env, recs[1..]);
      FirstRaiseTail(st, env, recs);
    }
  }

  /** A record that does not raise passes the first raise on to the rest of the
      catalog. */
  lemma FirstRaiseTail(st: PluginState, env: Collaborators, recs: seq<CatalogRecord>)
    requires recs != [] && !Process(st, env, recs[0]).Raised?
    ensures var k := FirstRaise(st, env, recs);
            && k == FirstRaise(st, env, recs[1..]) + 1
            && (k < |recs| ==> recs[k] == recs[1..][k - 1])
            && Qualifying(st.scope, recs[..k]) ==
                 (if InScope(st.scope, recs[0]) then [recs[0]] else []) + Qualifying(st.scope, recs[1..][..k - 1])
  {
    var k := FirstRaise(st, env, recs);
    assert recs[..k][1..] == recs[1..][..k - 1];
  }

  /** One row per handled record, in order. */
  lemma {:induction false} RowsOfHandled(st: PluginState, env: Collaborators, recs: seq<CatalogRecord>)
    ensures |Rows(st, env, recs)| == |Handled(st, env, recs)|
    ensures forall m :: 0 <= m < |Handled(st, env, recs)| ==>
              Process(st, env, Handled(st, env, recs)[m]).Emitted?
              && Rows(st, env, recs)[m] == Process(st, env, Handled(st, env, recs)[m]).row
    decreases |recs|
  {
    if recs != [] && !Process(st, env, recs[0]).Raised? {
      RowsOfHandled(st, env, recs[1..]);
      ProcessKinds(st, env, recs[0]);
      var h', rows' := Handled(st, env, recs[1..]), Rows(st, env, recs[1..]);
      if InScope(st.scope, recs[0]) {
        var o := Process(st, env, recs[0]);
        assert o.Emitted?;
        assert Rows(st, env, recs) == [o.row] + rows';
        assert Handled(st, env, recs) == [recs[0]] + h';
      } else {
        assert Process(st, env, recs[0]).Skipped?;
        assert Rows(st, env, recs) == rows';
        assert Handled(st, env, recs) == h';
      }
    }
  }

  /** The sheet holds one row per in-scope record before the first raising
      record, in catalog order, and no other row. */
  lemma RowsOfQualifyingRecords(st: PluginState, env: Collaborators, recs: seq<CatalogRecord>)
    ensures |Rows(st, env, recs)| == |Qualifying(st.scope, recs[..FirstRaise(st, env, recs)])|
    ensures var q := Qualifying(st.scope, recs[..FirstRaise(st, env, recs)]);
            forall m :: 0 <= m < |q| ==>
              Process(st, env, q[m]).Emitted? && Rows(st, env, recs)[m] == Process(st, env, q[m]).row
  {
    RowsOfHandled(st, env, recs);
    HandledQualifying(st, env, recs);
  }

  /** The write of the record at which the loop raised, if it got that far. */
  function RaisingWrite(st: PluginState, env: Collaborators, recs: seq<CatalogRecord>): seq<PurlWrite>
    decreases |recs|
  {
    if recs == [] then []
    else if Process(st, env, recs[0]).Raised? then
      match Process(st, env, recs[0]).partial
      case None => []
      case Some(w) => [w]
    else RaisingWrite(st, env, recs[1..])
  }

  /** The raising record's write is that of the record at the first raise. */
  lemma {:induction false} RaisingWriteAt(st: PluginState, env: Collaborators, recs: seq<CatalogRecord>)
    ensures var k := FirstRaise(st, env, recs);
            RaisingWrite(st, env, recs) ==
              if k < |recs| && WriteOf(Process(st, env, recs[k])).Some? then [WriteOf(Process(st, env, recs[k])).value]
              else []
    decreases |recs|
  {
    if recs != [] && !Process(st, env, recs[0]).Raised? {
      RaisingWriteAt(st, env, recs[1..]);
      FirstRaiseTail(st, env, recs);
    }
  }

  /** One write per handled record, in order, then the raising record's write. */
  lemma {:induction false} WritesOfHandled(st: PluginState, env: Collaborators, recs: seq<CatalogRecord>)
    ensures |Writes(st, env, recs)| == |Handled(st, env, recs)| + |RaisingWrite(st, env, recs)|
    ensures forall m :: 0 <= m < |Handled(st, env, recs)| ==>
              Some(Writes(st, env, recs)[m]) == WriteOf(Process(st, env, Handled(st, env, recs)[m]))
    ensures Writes(st, env, recs)[|Handled(st, env, recs)|..] == RaisingWrite(st, env, recs)
    decreases |recs|
  {
    if recs != [] {
      if Process(st, env, recs[0]).Raised? {
        assert Handled(st, env, recs) == [];
        assert Writes(st, env, recs) == RaisingWrite(st, env, recs);
      } else {
        ProcessKinds(st, env, recs[0]);
        WritesOfHandled(st, env, recs[1..]);
        var h', ws' := Handled(st, env, recs[1..]), Writes(st, env, recs[1..]);
        assert RaisingWrite(st, env, recs) == RaisingWrite(st, env, recs[1..]);
        if InScope(st.scope, recs[0]) {
          var o := Process(st, env, recs[0]);
          assert o.Emitted?;
          assert Writes(st, env, recs) == [o.write] + ws';
          assert Handled(st, env, recs) == [recs[0]] + h';
          assert Writes(st, env, recs)[|h'| + 1..] == ws'[|h'|..];
        } else {
          assert Process(st, env, recs[0]).Skipped?;
          assert Writes(st, env, recs) == ws';
          assert Handled(st, env, recs) == h';
        }
      }
    }
  }

  /** The purl writes are one per in-scope record before the first raising
      record, in catalog order, followed by the write of the raising record
      when it got as far as line 128. */
  lemma WritesOfQualifyingRecords(st: PluginState, env: Collaborators, recs: seq<CatalogRecord>)
    ensures var k := FirstRaise(st, env, recs);
            var q := Qualifying(st.scope, recs[..k]);
            var tail := if k < |recs| && WriteOf(Process(st, env, recs[k])).Some? then 1 else 0;
            && |Writes(st, env, recs)| == |q| + tail
            && (forall m :: 0 <= m < |q| ==> Some(Writes(st, env, recs)[m]) == WriteOf(Process(st, env, q[m])))
            && (tail == 1 ==> Some(Writes(st, env, recs)[|q|]) == WriteOf(Process(st, env, recs[k])))
  {
    WritesOfHandled(st, env, recs);
    HandledQualifying(st, env, recs);
    RaisingWriteAt(st, env, recs);
    var q := Handled(st, env, recs);
    assert Writes(st, env, recs)[|q|..] == RaisingWrite(st, env, recs);
    if |RaisingWrite(st, env, recs)| == 1 {
      assert Writes(st, env, recs)[|q|] == Writes(st, env, recs)[|q|..][0];
    }
  }

  /** The last write to a key decides its value. */
  lemma {:induction false} ApplyLastWriteWins(pd: map<string, string>, ws: seq<PurlWrite>, j: nat)
    requires j < |ws|
    requires forall n :: j < n < |ws| ==> ws[n].key != ws[j].key
    ensures ws[j].key in Apply(pd, ws) && Apply(pd, ws)[ws[j].key] == ws[j].purl
    decreases |ws|
  {
    var pd' := pd[ws[0].key := ws[0].purl];
    if j == 0 {
      ApplyUntouched(pd', ws[1..], ws[0].key);
    } else {
      ApplyLastWriteWins(pd', ws[1..], j - 1);
    }
  }

  /** A key no write touches keeps its value (or stays absent). */
  lemma {:induction false} ApplyUntouched(pd: map<string, string>, ws: seq<PurlWrite>, key: string)
    requires forall n :: 0 <= n < |ws| ==> ws[n].key != key
    ensures key in Apply(pd, ws) <==> key in pd
    ensures key in pd ==> Apply(pd, ws)[key] == pd[key]
    decreases |ws|
  {
    if ws != [] {
      ApplyUntouched(pd[ws[0].key := ws[0].purl], ws[1..], key);
    }
  }
}
