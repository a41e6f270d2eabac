/**
 * A domain function whose values come from a field (PK_DomainFunctionField):
 * Init reads which field, component and scaling factor to use and collects
 * the owned entities of the listed regions; Compute writes, for each of those
 * entities, the field's values there scaled by the factor into the value map.
 */
module DomainFunctionField {
  import opened ParameterLists

  /** The kinds of mesh entity a region is resolved to. */
  datatype EntityKind = Cell | Face | Edge | Node

  /** The kind as an error message prints it. */
  function KindName(k: EntityKind): string
  {
    match k
    case Cell => "cell"
    case Face => "face"
    case Edge => "edge"
    case Node => "node"
  }

  /** What getType can report: this class is the field-backed kind; the others belong to other classes. */
  datatype DomainFunctionKind = FieldKind | OtherKind

  /**
   * The region lookups the mesh answers: whether a name is a set of entities
   * of a kind, and the owned entities of that set.
   */
  datatype RegionMesh = RegionMesh(
    isValidSetName: (string, EntityKind) -> bool,
    getSetEntities: (string, EntityKind) -> seq<int>)

  const SourcePrefix := "error in source sublist : "

  function UnknownRegionText(region: string, kind: EntityKind): string
  {
    "Unknown region in processing coupling source: name=" + region + ", kind=" + KindName(kind) + "\n"
  }

  /** What the keyword sub-list configures: the field, its tag and component, and the scaling factor. */
  datatype SourceSettings = SourceSettings(fieldKey: string, tag: string, component: string, factor: real)

  /**
   * The reads of the keyword sub-list, as Teuchos performs them: the sub-list
   * of a const list must exist; "field key" is required; "tag" (default
   * empty), "component" (default "cell") and "scaling factor" (default 1.0)
   * are optional.
   */
  function ReadSource(plist: ParameterList, keyword: string): (r: Result<SourceSettings, ConfigError>)
    ensures keyword !in plist.entries ==> r == Err(InvalidParameterName(keyword))
    ensures r.Ok? <==>
      && keyword in plist.entries && plist.entries[keyword].List?
      && var flist := plist.entries[keyword].sub.entries;
         && "field key" in flist && flist["field key"].Str?
         && ("tag" in flist ==> flist["tag"].Str?)
         && ("component" in flist ==> flist["component"].Str?)
         && ("scaling factor" in flist ==> flist["scaling factor"].Double?)
    ensures r.Ok? ==>
      var flist := plist.entries[keyword].sub.entries;
      && r.value.fieldKey == flist["field key"].s
      && r.value.tag == (if "tag" in flist then flist["tag"].s else "")
      && r.value.component == (if "component" in flist then flist["component"].s else "cell")
      && r.value.factor == (if "scaling factor" in flist then flist["scaling factor"].d else 1.0)
    ensures r.Err? ==> !r.error.Message?
  {
    match ConstSublist(plist, keyword)
    case Err(e) => Err(e)
    case Ok(flist) =>
      match GetString(flist, "field key")
      case Err(e) => Err(e)
      case Ok(fieldKey) =>
        match GetStringOr(flist, "tag", "")
        case Err(e) => Err(e)
        case Ok(tag) =>
          match GetStringOr(flist, "component", "cell")
          case Err(e) => Err(e)
          case Ok(component) =>
            match GetDoubleOr(flist, "scaling factor", 1.0)
            case Err(e) => Err(e)
            case Ok(factor) => Ok(SourceSettings(fieldKey, tag, component, factor))
  }

  /** The try/catch around the reads as the code has it: only an Errors::Message gets the prefix. */
  function ReadSourceAsWritten(plist: ParameterList, keyword: string): (r: Result<SourceSettings, ConfigError>)
    ensures r.Ok? <==> ReadSource(plist, keyword).Ok?
    ensures r.Ok? ==> r == ReadSource(plist, keyword)
    ensures r.Err? ==> r == ReadSource(plist, keyword) && !r.error.Message?
  {
    match ReadSource(plist, keyword)
    case Ok(s) => Ok(s)
    case Err(Message(text)) => Err(Message(SourcePrefix + text))
    case Err(e) => Err(e)
  }

  /**
   * As written, a sub-list without "field key" fails with Teuchos's own
   * exception, which the catch clause does not match: the error reaches the
   * caller without the "error in source sublist" prefix.
   */
  lemma AsWrittenMissingFieldKeyUnprefixed(plist: ParameterList, keyword: string)
    requires keyword in plist.entries && plist.entries[keyword].List?
    requires "field key" !in plist.entries[keyword].sub.entries
    ensures ReadSourceAsWritten(plist, keyword) == Err(InvalidParameterName("field key"))
    ensures !ReadSourceAsWritten(plist, keyword).error.Message?
  {
  }

  /** The intended handling: every failure of the reads is re-raised as a message with the prefix. */
  function ReadSourceCaught(plist: ParameterList, keyword: string): (r: Result<SourceSettings, ConfigError>)
    ensures r.Ok? <==> ReadSource(plist, keyword).Ok?
    ensures r.Ok? ==> r == ReadSource(plist, keyword)
    ensures r.Err? ==> r.error == Message(SourcePrefix + What(ReadSource(plist, keyword).error))
  {
    match ReadSource(plist, keyword)
    case Ok(s) => Ok(s)
    case Err(e) => Err(Message(SourcePrefix + What(e)))
  }

  /** With the corrected handling, every failure of the sub-list reads carries the prefix and names what failed. */
  lemma CaughtFailuresArePrefixed(plist: ParameterList, keyword: string)
    requires ReadSourceCaught(plist, keyword).Err?
    ensures var e := ReadSourceCaught(plist, keyword).error;
            && e.Message?
            && |SourcePrefix| <= |e.text|
            && e.text[..|SourcePrefix|] == SourcePrefix
            && e.text[|SourcePrefix|..] == What(ReadSource(plist, keyword).error)
  {
  }

  /**
   * The entities of the regions, in order: the union of the owned entities
   * of each region, or an "Unknown region" error for the first name that is
   * not a set of entities of the kind.
   */
  function RegionIds(mesh: RegionMesh, kind: EntityKind, regions: seq<string>): Result<set<int>, ConfigError>
  {
    if regions == [] then Ok({})
    else
      match RegionIds(mesh, kind, regions[..|regions| - 1])
      case Err(e) => Err(e)
      case Ok(ids) =>
        var region := regions[|regions| - 1];
        if mesh.isValidSetName(region, kind) then Ok(ids + set id | id in mesh.getSetEntities(region, kind))
        else Err(Message(UnknownRegionText(region, kind)))
  }

  /** The region lookup succeeds exactly when every region is known. */
  lemma {:induction false} RegionIdsKnown(mesh: RegionMesh, kind: EntityKind, regions: seq<string>)
    ensures RegionIds(mesh, kind, regions).Ok? <==> forall i :: 0 <= i < |regions| ==> mesh.isValidSetName(regions[i], kind)
  {
    if regions != [] {
      var init := regions[..|regions| - 1];
      RegionIdsKnown(mesh, kind, init);
      assert forall i :: 0 <= i < |init| ==> init[i] == regions[i];
    }
  }

  /** A successful lookup gives the union of the owned entities of the regions. */
  lemma {:induction false} RegionIdsUnion(mesh: RegionMesh, kind: EntityKind, regions: seq<string>)
    requires RegionIds(mesh, kind, regions).Ok?
    ensures forall id :: id in RegionIds(mesh, kind, regions).value <==>
      exists i :: 0 <= i < |regions| && id in mesh.getSetEntities(regions[i], kind)
  {
    if regions != [] {
      var init := regions[..|regions| - 1];
      var last := |regions| - 1;
      RegionIdsUnion(mesh, kind, init);
      var ids := RegionIds(mesh, kind, init).value;
      var r := RegionIds(mesh, kind, regions).value;
      assert r == ids + set id | id in mesh.getSetEntities(regions[last], kind);
      forall id ensures id in r <==> exists i :: 0 <= i < |regions| && id in mesh.getSetEntities(regions[i], kind) {
        if id in r && id !in ids {
          assert id in mesh.getSetEntities(regions[last], kind);
        }
        if id in ids {
          var i :| 0 <= i < |init| && id in mesh.getSetEntities(init[i], kind);
          assert regions[i] == init[i];
        }
        if exists i :: 0 <= i < |regions| && id in mesh.getSetEntities(regions[i], kind) {
          var i :| 0 <= i < |regions| && id in mesh.getSetEntities(regions[i], kind);
          if i < last {
            assert id in mesh.getSetEntities(init[i], kind);
          }
        }
      }
    }
  }

  /** regions[i] is the first region that is not a set of entities of the kind. */
  predicate FirstUnknownAt(mesh: RegionMesh, kind: EntityKind, regions: seq<string>, i: int)
  {
    && 0 <= i < |regions| && !mesh.isValidSetName(regions[i], kind)
    && forall j :: 0 <= j < i ==> mesh.isValidSetName(regions[j], kind)
  }

  /** A failed lookup names the first unknown region. */
  lemma {:induction false} RegionIdsFirstUnknown(mesh: RegionMesh, kind: EntityKind, regions: seq<string>)
    requires RegionIds(mesh, kind, regions).Err?
    ensures exists i ::
      && FirstUnknownAt(mesh, kind, regions, i)
      && RegionIds(mesh, kind, regions).error == Message(UnknownRegionText(regions[i], kind))
  {
    var init := regions[..|regions| - 1];
    var last := |regions| - 1;
    match RegionIds(mesh, kind, init)
    case Err(e) =>
      RegionIdsFirstUnknown(mesh, kind, init);
      var i :| FirstUnknownAt(mesh, kind, init, i) && e == Message(UnknownRegionText(init[i], kind));
      assert forall j :: 0 <= j <= i ==> init[j] == regions[j];
      assert FirstUnknownAt(mesh, kind, regions, i);
    case Ok(_) =>
      RegionIdsKnown(mesh, kind, init);
      assert forall j :: 0 <= j < last ==> init[j] == regions[j];
      assert FirstUnknownAt(mesh, kind, regions, last);
  }

  /** The first unknown region decides the error, whatever follows it. */
  lemma {:induction false} RegionIdsStopsAt(mesh: RegionMesh, kind: EntityKind, regions: seq<string>, n: nat)
    requires n < |regions| && RegionIds(mesh, kind, regions[..n]).Ok? && !mesh.isValidSetName(regions[n], kind)
    ensures RegionIds(mesh, kind, regions) == Err(Message(UnknownRegionText(regions[n], kind)))
    decreases |regions|
  {
    if |regions| == n + 1 {
      assert regions[..|regions| - 1] == regions[..n];
      assert regions[|regions| - 1] == regions[n];
    } else {
      var init := regions[..|regions| - 1];
      assert init[..n] == regions[..n] && init[n] == regions[n];
      RegionIdsStopsAt(mesh, kind, init, n);
    }
  }

  /** Listing a region again at the end changes nothing: the set absorbs the repeated entities. */
  lemma {:induction false} RegionIdsAbsorbs(mesh: RegionMesh, kind: EntityKind, regions: seq<string>, i: nat)
    requires i < |regions|
    ensures RegionIds(mesh, kind, regions + [regions[i]]) == RegionIds(mesh, kind, regions)
  {
    var longer := regions + [regions[i]];
    assert longer[..|longer| - 1] == regions;
    match RegionIds(mesh, kind, regions)
    case Err(e) =>
    case Ok(ids) =>
      RegionIdsKnown(mesh, kind, regions);
      RegionIdsUnion(mesh, kind, regions);
      assert mesh.isValidSetName(regions[i], kind);
      var r := RegionIds(mesh, kind, longer).value;
      forall id | id in r ensures id in ids {
        if id in mesh.getSetEntities(regions[i], kind) {
          assert exists j :: 0 <= j < |regions| && id in mesh.getSetEntities(regions[j], kind);
        }
      }
      assert r == ids;
  }

  /** A set that is not empty has a member. */
  lemma Inhabited(s: set<int>)
    requires s != {}
    ensures exists x :: x in s
  {
    if forall x :: x !in s {
      assert false;
    }
  }

  /** What a successful Init configures. */
  datatype Config = Config(submodel: string, source: SourceSettings, entityIds: set<int>)

  /**
   * Init as a function of its inputs: "submodel" (default "rate"), then the
   * required "regions", then the keyword sub-list, then the region lookup,
   * failing at the first step that fails.
   */
  function Configure(mesh: RegionMesh, kind: EntityKind, plist: ParameterList, keyword: string): (r: Result<Config, ConfigError>)
    ensures r.Ok? ==>
      if IsParameter(plist, "submodel") then GetString(plist, "submodel") == Ok(r.value.submodel) else r.value.submodel == "rate"
    ensures r.Ok? ==> GetStringArray(plist, "regions").Ok? && ReadSource(plist, keyword) == Ok(r.value.source)
    ensures r.Ok? ==> RegionIds(mesh, kind, GetStringArray(plist, "regions").value) == Ok(r.value.entityIds)
    ensures GetStringArray(plist, "regions").Err? ==> r.Err?
    ensures ReadSource(plist, keyword).Err? ==> r.Err?
    ensures (IsParameter(plist, "submodel") ==> GetString(plist, "submodel").Ok?) && GetStringArray(plist, "regions").Ok? &&
            ReadSource(plist, keyword).Err? ==>
      r == Err(Message(SourcePrefix + What(ReadSource(plist, keyword).error)))
    ensures (IsParameter(plist, "submodel") ==> GetString(plist, "submodel").Ok?) && GetStringArray(plist, "regions").Ok? &&
            ReadSource(plist, keyword).Ok? ==>
      var ids := RegionIds(mesh, kind, GetStringArray(plist, "regions").value);
      && (r.Ok? <==> ids.Ok?)
      && (ids.Err? ==> r == Err(ids.error))
  {
    var submodel := if IsParameter(plist, "submodel") then GetString(plist, "submodel") else Ok("rate");
    match submodel
    case Err(e) => Err(e)
    case Ok(submodel) =>
      match GetStringArray(plist, "regions")
      case Err(e) => Err(e)
      case Ok(regions) =>
        match ReadSourceCaught(plist, keyword)
        case Err(e) => Err(e)
        case Ok(source) =>
          match RegionIds(mesh, kind, regions)
          case Err(e) => Err(e)
          case Ok(ids) => Ok(Config(submodel, source, ids))
  }

  /**
   * When the submodel, the regions and the keyword sub-list read, Init fails
   * exactly with the "Unknown region" message of the first unknown region.
   */
  lemma ConfigureUnknownRegion(mesh: RegionMesh, kind: EntityKind, plist: ParameterList, keyword: string, i: int)
    requires IsParameter(plist, "submodel") ==> GetString(plist, "submodel").Ok?
    requires GetStringArray(plist, "regions").Ok? && ReadSource(plist, keyword).Ok?
    requires FirstUnknownAt(mesh, kind, GetStringArray(plist, "regions").value, i)
    ensures Configure(mesh, kind, plist, keyword) ==
      Err(Message(UnknownRegionText(GetStringArray(plist, "regions").value[i], kind)))
  {
    var regions := GetStringArray(plist, "regions").value;
    RegionIdsKnown(mesh, kind, regions);
    RegionIdsFirstUnknown(mesh, kind, regions);
    var j :| FirstUnknownAt(mesh, kind, regions, j)
      && RegionIds(mesh, kind, regions).error == Message(UnknownRegionText(regions[j], kind));
    assert !(j < i) && !(i < j);
  }

  /** The field's values at entity c, one per vector, scaled by factor. */
  function Scaled(field: seq<seq<real>>, c: int, factor: real): (v: seq<real>)
    requires 0 <= c
    requires forall i :: 0 <= i < |field| ==> c < |field[i]|
    ensures |v| == |field|
    ensures forall i :: 0 <= i < |field| ==> v[i] == factor * field[i][c]
  {
    seq(|field|, i requires 0 <= i < |field| => factor * field[i][c])
  }

  /** The field covers the entities ids in every vector. */
  predicate Covers(field: seq<seq<real>>, ids: set<int>)
  {
    forall c :: c in ids ==> 0 <= c && forall i :: 0 <= i < |field| ==> c < |field[i]|
  }

  /**
   * The value map after a refresh of the entities ids: those map to the
   * field's scaled values, every other entry keeps its value, and no other
   * entry appears.
   */
  function Refreshed(values: map<int, seq<real>>, ids: set<int>, field: seq<seq<real>>, factor: real): (r: map<int, seq<real>>)
    requires Covers(field, ids)
    ensures r.Keys == values.Keys + ids
    ensures forall c :: c in ids ==> |r[c]| == |field| && forall i :: 0 <= i < |field| ==> r[c][i] == factor * field[i][c]
    ensures forall c :: c in values && c !in ids ==> r[c] == values[c]
  {
    map c | c in values.Keys + ids :: if c in ids then Scaled(field, c, factor) else values[c]
  }

  /** Refreshing twice with the same field is refreshing once. */
  lemma RefreshIdempotent(values: map<int, seq<real>>, ids: set<int>, field: seq<seq<real>>, factor: real)
    requires Covers(field, ids)
    ensures Refreshed(Refreshed(values, ids, field, factor), ids, field, factor) == Refreshed(values, ids, field, factor)
  {
    var once := Refreshed(values, ids, field, factor);
    var twice := Refreshed(once, ids, field, factor);
    forall c | c in twice.Keys ensures twice[c] == once[c] {
      if c in ids {
        assert twice[c] == Scaled(field, c, factor) == once[c];
      }
    }
  }

  /** Refreshing one more entity updates just that entry. */
  lemma RefreshOneMore(values: map<int, seq<real>>, done: set<int>, c: int, field: seq<seq<real>>, factor: real)
    requires Covers(field, done + {c})
    ensures Refreshed(values, done + {c}, field, factor) == Refreshed(values, done, field, factor)[c := Scaled(field, c, factor)]
  {
    var a := Refreshed(values, done + {c}, field, factor);
    var b := Refreshed(values, done, field, factor)[c := Scaled(field, c, factor)];
    forall x | x in a.Keys ensures a[x] == b[x] {
      if x in done || x == c {
        assert a[x] == Scaled(field, x, factor);
      }
    }
  }

  /**
   * The field-backed domain function: its configuration, the set of target
   * entities, and the value map Compute refreshes.
   */
  class DomainFunctionField {
    const mesh: RegionMesh
    const kind: EntityKind
    var keyword: string
    var submodel: string
    var fieldKey: string
    var tag: string
    var component: string
    var factor: real
    var entityIds: set<int>
    var value: map<int, seq<real>>

    /** The C++ constructor sets only the mesh and the kind; the model starts the rest empty. */
    constructor (mesh: RegionMesh, kind: EntityKind)
      ensures this.mesh == mesh && this.kind == kind
      ensures entityIds == {} && value == map[]
    {
      this.mesh := mesh;
      this.kind := kind;
      keyword, submodel, fieldKey, tag, component := "", "", "", "", "";
      factor := 0.0;
      entityIds := {};
      value := map[];
    }

    /**
     * Init: the keyword, the submodel, the regions, the keyword sub-list
     * (failures re-raised with the "error in source sublist" prefix), then
     * the union of the regions' owned entities, failing on an unknown region.
     */
    method Init(plist: ParameterList, keyword: string) returns (outcome: Outcome<ConfigError>)
      modifies this
      ensures this.keyword == keyword
      ensures value == old(value)
      ensures outcome.Pass? <==> Configure(mesh, kind, plist, keyword).Ok?
      ensures outcome.Pass? ==>
        Configure(mesh, kind, plist, keyword).value ==
          Config(submodel, SourceSettings(fieldKey, tag, component, factor), entityIds)
      ensures outcome.Fail? ==> outcome.error == Configure(mesh, kind, plist, keyword).error
    {
      ghost var expected := Configure(mesh, kind, plist, keyword);
      this.keyword := keyword;
      submodel := "rate";
      if IsParameter(plist, "submodel") {
        var s := GetString(plist, "submodel");
        if s.Err? {
          assert expected == Err(s.error);
          return Fail(s.error);
        }
        submodel := s.value;
      }
      var regions := GetStringArray(plist, "regions");
      if regions.Err? {
        assert expected == Err(regions.error);
        return Fail(regions.error);
      }
      var source := ReadSourceCaught(plist, keyword);
      if source.Err? {
        assert expected == Err(source.error);
        return Fail(source.error);
      }
      fieldKey, tag, component, factor := source.value.fieldKey, source.value.tag, source.value.component, source.value.factor;
      outcome := CollectRegions(regions.value);
      assert expected == match RegionIds(mesh, kind, regions.value)
        case Ok(ids) => Ok(Config(submodel, source.value, ids))
        case Err(e) => Err(e);
    }

    /**
     * The region loop of Init: start from no entities and add the owned
     * entities of each region in turn, failing at the first unknown region.
     */
    method CollectRegions(names: seq<string>) returns (outcome: Outcome<ConfigError>)
      modifies this`entityIds
      ensures outcome.Pass? <==> RegionIds(mesh, kind, names).Ok?
      ensures outcome.Pass? ==> RegionIds(mesh, kind, names) == Ok(entityIds)
      ensures outcome.Fail? ==> RegionIds(mesh, kind, names) == Err(outcome.error)
    {
      entityIds := {};
      for n := 0 to |names|
        invariant RegionIds(mesh, kind, names[..n]) == Ok(entityIds)
      {
        var region := names[n];
        assert names[..n + 1][..n] == names[..n] && names[..n + 1][n] == region;
        if mesh.isValidSetName(region, kind) {
          var ids := mesh.getSetEntities(region, kind);
          entityIds := entityIds + set id | id in ids;
        } else {
          RegionIdsStopsAt(mesh, kind, names, n);
          return Fail(Message(UnknownRegionText(region, kind)));
        }
      }
      assert names[..|names|] == names;
      outcome := Pass;
    }

    /**
     * Compute: for every target entity, refill the scratch vector with the
     * field's values there times the factor and store it in the value map.
     */
    method Compute(field: seq<seq<real>>)
      requires Covers(field, entityIds)
      modifies this`value
      ensures value == Refreshed(old(value), entityIds, field, factor)
    {
      var values := new real[|field|];
      var todo := entityIds;
      ghost var done: set<int> := {};
      while todo != {}
        invariant todo + done == entityIds && todo !! done
        invariant Covers(field, done)
        invariant value == Refreshed(old(value), done, field, factor)
        decreases todo
      {
        Inhabited(todo);
        var c :| c in todo;
        RefreshOneMore(old(value), done, c, field, factor);
        Store(field, c, values);
        todo := todo - {c};
        done := done + {c};
      }
    }

    /** The body of Compute's loop for entity c: refill values from the field, then store a copy under c. */
    method Store(field: seq<seq<real>>, c: int, values: array<real>)
      requires 0 <= c && forall i :: 0 <= i < |field| ==> c < |field[i]|
      requires values.Length == |field|
      modifies this`value, values
      ensures value == old(value)[c := Scaled(field, c, factor)]
    {
      for i := 0 to |field|
        invariant value == old(value)
        invariant forall j :: 0 <= j < i ==> values[j] == factor * field[j][c]
      {
        values[i] := factor * field[i][c];
      }
      assert values[..] == Scaled(field, c, factor) by {
        forall j | 0 <= j < |field| ensures values[..][j] == Scaled(field, c, factor)[j] { }
      }
      value := value[c := values[..]];
    }

    /** getType: always the field-backed kind. */
    function GetType(): (k: DomainFunctionKind)
      ensures k == FieldKind
    {
      FieldKind
    }
  }
}
