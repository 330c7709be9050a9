/**
 * The three tables of the portfolio: projects, their technology tags and their demo
 * media, with the constructor defaults, the declared column bounds and the JSON
 * serialisation of a project and of a demo item.
 */
module Models {
  import opened Wrappers

  /** A point in time; the wall clock itself is outside the model. */
  type Time = nat

  // Declared column widths.
  const TitleMax: nat := 100
  const UrlMax: nat := 200
  const TechNameMax: nat := 50
  const MediaUrlMax: nat := 500
  const MediaTypeMax: nat := 20
  const MediaNameMax: nat := 100

  /**
   * A row of `projects`. The id and the two timestamps are unset until the row is
   * inserted; the three URL columns are nullable.
   */
  datatype Project = Project(
    id: Option<nat>,
    title: string,
    description: string,
    githubUrl: Option<string>,
    demoUrl: Option<string>,
    imageUrl: Option<string>,
    createdAt: Option<Time>,
    updatedAt: Option<Time>)

  /** A row of `technologies`: one tag of one project. */
  datatype Technology = Technology(id: Option<nat>, name: string, projectId: nat)

  /** A row of `demo`: one media item shown for a project. */
  datatype Demo = Demo(
    id: Option<nat>,
    projectId: nat,
    mediaUrl: string,
    mediaType: string,
    mediaName: Option<string>,
    orderIndex: int,
    createdAt: Option<Time>)

  /** `Project(title, description, github_url='', demo_url='', image_url='')`. */
  function NewProject(title: string, description: string,
                      githubUrl: string := "", demoUrl: string := "", imageUrl: string := ""): (p: Project)
    ensures p.id.None? && p.createdAt.None? && p.updatedAt.None?
    ensures p.title == title && p.description == description
    ensures p.githubUrl == Some(githubUrl) && p.demoUrl == Some(demoUrl) && p.imageUrl == Some(imageUrl)
  {
    Project(None, title, description, Some(githubUrl), Some(demoUrl), Some(imageUrl), None, None)
  }

  /** `Technology(name, project_id)`. */
  function NewTechnology(name: string, projectId: nat): (t: Technology)
    ensures t.id.None? && t.name == name && t.projectId == projectId
  {
    Technology(None, name, projectId)
  }

  /** `Demo(project_id, media_url, media_type, media_name=None, order_index=0)`. */
  function NewDemo(projectId: nat, mediaUrl: string, mediaType: string,
                   mediaName: Option<string> := None, orderIndex: int := 0): (d: Demo)
    ensures d.id.None? && d.createdAt.None?
    ensures d.projectId == projectId && d.mediaUrl == mediaUrl && d.mediaType == mediaType
    ensures d.mediaName == mediaName && d.orderIndex == orderIndex
  {
    Demo(None, projectId, mediaUrl, mediaType, mediaName, orderIndex, None)
  }

  /** Called with the two required arguments only, a project gets three empty URLs. */
  lemma ProjectDefaults(title: string, description: string)
    ensures var p := NewProject(title, description);
      p.githubUrl == Some("") && p.demoUrl == Some("") && p.imageUrl == Some("")
  {
  }

  /** Called with the three required arguments only, a demo item has no name and index 0. */
  lemma DemoDefaults(projectId: nat, mediaUrl: string, mediaType: string)
    ensures var d := NewDemo(projectId, mediaUrl, mediaType);
      d.mediaName == None && d.orderIndex == 0
  {
  }

  // ---------------------------------------------------------------------------
  // Declared bounds
  // ---------------------------------------------------------------------------

  predicate FitsIn(o: Option<string>, max: nat)
  {
    o.None? || |o.value| <= max
  }

  /** The project's strings fit their declared column widths. */
  predicate ProjectFits(p: Project)
  {
    |p.title| <= TitleMax && FitsIn(p.githubUrl, UrlMax) && FitsIn(p.demoUrl, UrlMax) && FitsIn(p.imageUrl, UrlMax)
  }

  predicate TechnologyFits(t: Technology)
  {
    |t.name| <= TechNameMax
  }

  predicate DemoFits(d: Demo)
  {
    |d.mediaUrl| <= MediaUrlMax && |d.mediaType| <= MediaTypeMax && FitsIn(d.mediaName, MediaNameMax)
  }

  // ---------------------------------------------------------------------------
  // `to_dict`
  // ---------------------------------------------------------------------------

  /**
   * The JSON values `to_dict` produces. An object keeps its keys in insertion order,
   * as a Python dict does; a timestamp stands for its `isoformat()` text.
   */
  datatype Json =
    | JNull
    | JInt(i: int)
    | JStr(s: string)
    | JTime(t: Time)
    | JArray(items: seq<Json>)
    | JObject(fields: seq<(string, Json)>)

  function OptNat(o: Option<nat>): Json
  {
    if o.Some? then JInt(o.value) else JNull
  }

  function OptStr(o: Option<string>): Json
  {
    if o.Some? then JStr(o.value) else JNull
  }

  /** `x.isoformat() if x else None`. */
  function OptTime(o: Option<Time>): Json
  {
    if o.Some? then JTime(o.value) else JNull
  }

  /** The value stored under `key` in a JSON object, if any. */
  function Lookup(j: Json, key: string): Option<Json>
  {
    if j.JObject? then LookupField(j.fields, key) else None
  }

  function LookupField(fields: seq<(string, Json)>, key: string): (r: Option<Json>)
    ensures r.Some? ==> exists k :: 0 <= k < |fields| && fields[k] == (key, r.value)
  {
    if |fields| == 0 then None
    else if fields[0].0 == key then Some(fields[0].1)
    else LookupField(fields[1..], key)
  }

  /** The value under the first field named `key`. */
  lemma {:induction false} LookupAt(fields: seq<(string, Json)>, k: nat, key: string)
    requires k < |fields| && fields[k].0 == key
    requires forall j :: 0 <= j < k ==> fields[j].0 != key
    ensures LookupField(fields, key) == Some(fields[k].1)
  {
    if k > 0 {
      assert fields[1..][k - 1] == fields[k];
      LookupAt(fields[1..], k - 1, key);
    }
  }

  /** `Demo.to_dict()`. */
  function DemoToDict(d: Demo): Json
  {
    JObject([
      ("id", OptNat(d.id)),
      ("project_id", JInt(d.projectId)),
      ("media_url", JStr(d.mediaUrl)),
      ("media_type", JStr(d.mediaType)),
      ("media_name", OptStr(d.mediaName)),
      ("order_index", JInt(d.orderIndex)),
      ("created_at", OptTime(d.createdAt))
    ])
  }

  /** `[tech.name for tech in techs]`. */
  function TechNames(techs: seq<Technology>): (names: seq<string>)
    ensures |names| == |techs|
    ensures forall k :: 0 <= k < |techs| ==> names[k] == techs[k].name
  {
    seq(|techs|, k requires 0 <= k < |techs| => techs[k].name)
  }

  /** `[s for s in names]` as JSON strings. */
  function StrArray(names: seq<string>): (r: seq<Json>)
    ensures |r| == |names|
    ensures forall k :: 0 <= k < |names| ==> r[k] == JStr(names[k])
  {
    seq(|names|, k requires 0 <= k < |names| => JStr(names[k]))
  }

  /** `[media.to_dict() for media in demos]`. */
  function DemoArray(demos: seq<Demo>): (r: seq<Json>)
    ensures |r| == |demos|
    ensures forall k :: 0 <= k < |demos| ==> r[k] == DemoToDict(demos[k])
  {
    seq(|demos|, k requires 0 <= k < |demos| => DemoToDict(demos[k]))
  }

  /**
   * `Project.to_dict()`, given the project's `technologies` and `demo_media`
   * relationships in their relationship order.
   */
  function ProjectToDict(p: Project, techs: seq<Technology>, demos: seq<Demo>): Json
  {
    JObject([
      ("id", OptNat(p.id)),
      ("title", JStr(p.title)),
      ("description", JStr(p.description)),
      ("github_url", OptStr(p.githubUrl)),
      ("demo_url", OptStr(p.demoUrl)),
      ("image_url", OptStr(p.imageUrl)),
      ("created_at", OptTime(p.createdAt)),
      ("updated_at", OptTime(p.updatedAt)),
      ("technologies", JArray(StrArray(TechNames(techs)))),
      ("demo_media", JArray(DemoArray(demos)))
    ])
  }

  /** The serialised lists are the technology names and the demo items' own dictionaries. */
  lemma ProjectDictLists(p: Project, techs: seq<Technology>, demos: seq<Demo>)
    ensures Lookup(ProjectToDict(p, techs, demos), "technologies")
         == Some(JArray(seq(|techs|, k requires 0 <= k < |techs| => JStr(techs[k].name))))
    ensures Lookup(ProjectToDict(p, techs, demos), "demo_media")
         == Some(JArray(seq(|demos|, k requires 0 <= k < |demos| => DemoToDict(demos[k]))))
  {
    var j := ProjectToDict(p, techs, demos);
    ProjectDictHead(p, techs, demos);
    ProjectDictTail(p, techs, demos);
    LookupAt(j.fields, 8, "technologies");
    LookupAt(j.fields, 9, "demo_media");
    assert StrArray(TechNames(techs)) == seq(|techs|, k requires 0 <= k < |techs| => JStr(techs[k].name));
    assert DemoArray(demos) == seq(|demos|, k requires 0 <= k < |demos| => DemoToDict(demos[k]));
  }

  /** An unset timestamp serialises to `None`, a set one to its value. */
  lemma CreatedAtSerialises(p: Project, techs: seq<Technology>, demos: seq<Demo>)
    ensures Lookup(ProjectToDict(p, techs, demos), "created_at") == Some(if p.createdAt.None? then JNull else JTime(p.createdAt.value))
  {
    var f := ProjectToDict(p, techs, demos).fields;
    assert f[6].0 == "created_at";
    LookupAt(f, 6, "created_at");
  }

  lemma UpdatedAtSerialises(p: Project, techs: seq<Technology>, demos: seq<Demo>)
    ensures Lookup(ProjectToDict(p, techs, demos), "updated_at") == Some(if p.updatedAt.None? then JNull else JTime(p.updatedAt.value))
  {
    var f := ProjectToDict(p, techs, demos).fields;
    assert f[7].0 == "updated_at";
    LookupAt(f, 7, "updated_at");
  }

  lemma DemoCreatedAtSerialises(d: Demo)
    ensures Lookup(DemoToDict(d), "created_at") == Some(if d.createdAt.None? then JNull else JTime(d.createdAt.value))
  {
    var f := DemoToDict(d).fields;
    assert f[6].0 == "created_at";
    LookupAt(f, 6, "created_at");
  }

  // ---------------------------------------------------------------------------
  // Reading a dictionary back
  // ---------------------------------------------------------------------------

  function AsOptNat(j: Json): Option<Option<nat>>
  {
    match j
    case JNull => Some(None)
    case JInt(i) => if i >= 0 then Some(Some(i as nat)) else None
    case _ => None
  }

  function AsOptStr(j: Json): Option<Option<string>>
  {
    match j
    case JNull => Some(None)
    case JStr(s) => Some(Some(s))
    case _ => None
  }

  function AsOptTime(j: Json): Option<Option<Time>>
  {
    match j
    case JNull => Some(None)
    case JTime(t) => Some(Some(t))
    case _ => None
  }

  /** Reads a demo item back from its dictionary. */
  function DemoFromDict(j: Json): Option<Demo>
  {
    if !j.JObject? || |j.fields| != 7 then None
    else
      var f := j.fields;
      var id := AsOptNat(f[0].1);
      var name := AsOptStr(f[4].1);
      var created := AsOptTime(f[6].1);
      if f[0].0 == "id" && f[1].0 == "project_id" && f[2].0 == "media_url" && f[3].0 == "media_type"
         && f[4].0 == "media_name" && f[5].0 == "order_index" && f[6].0 == "created_at"
         && id.Some? && f[1].1.JInt? && f[1].1.i >= 0 && f[2].1.JStr? && f[3].1.JStr?
         && name.Some? && f[5].1.JInt? && created.Some?
      then Some(Demo(id.value, f[1].1.i as nat, f[2].1.s, f[3].1.s, name.value, f[5].1.i, created.value))
      else None
  }

  /** `DemoFromDict` inverts `DemoToDict`: the dictionary loses nothing. */
  lemma DemoDictRoundTrip(d: Demo)
    ensures DemoFromDict(DemoToDict(d)) == Some(d)
  {
  }

  function DemosFromArray(items: seq<Json>): Option<seq<Demo>>
  {
    if |items| == 0 then Some([])
    else
      match (DemoFromDict(items[0]), DemosFromArray(items[1..]))
      case (Some(d), Some(ds)) => Some([d] + ds)
      case _ => None
  }

  lemma {:induction false} DemoArrayRoundTrip(demos: seq<Demo>)
    ensures DemosFromArray(DemoArray(demos)) == Some(demos)
  {
    if |demos| > 0 {
      DemoDictRoundTrip(demos[0]);
      assert DemoArray(demos)[1..] == DemoArray(demos[1..]);
      DemoArrayRoundTrip(demos[1..]);
      assert [demos[0]] + demos[1..] == demos;
    }
  }

  function NamesFromArray(items: seq<Json>): Option<seq<string>>
  {
    if |items| == 0 then Some([])
    else
      match (items[0], NamesFromArray(items[1..]))
      case (JStr(s), Some(ns)) => Some([s] + ns)
      case _ => None
  }

  lemma {:induction false} StrArrayRoundTrip(names: seq<string>)
    ensures NamesFromArray(StrArray(names)) == Some(names)
  {
    if |names| > 0 {
      assert StrArray(names)[1..] == StrArray(names[1..]);
      StrArrayRoundTrip(names[1..]);
      assert [names[0]] + names[1..] == names;
    }
  }

  /** What a project dictionary holds: the row, its technology names and its demo items. */
  datatype ProjectView = ProjectView(project: Project, technologies: seq<string>, demoMedia: seq<Demo>)

  /** Reads a project dictionary back. */
  function ProjectFromDict(j: Json): Option<ProjectView>
  {
    if !j.JObject? || |j.fields| != 10 then None
    else
      var f := j.fields;
      var id := AsOptNat(f[0].1);
      var gh := AsOptStr(f[3].1);
      var dm := AsOptStr(f[4].1);
      var im := AsOptStr(f[5].1);
      var cr := AsOptTime(f[6].1);
      var up := AsOptTime(f[7].1);
      var names := if f[8].1.JArray? then NamesFromArray(f[8].1.items) else None;
      var demos := if f[9].1.JArray? then DemosFromArray(f[9].1.items) else None;
      if f[0].0 == "id" && f[1].0 == "title" && f[2].0 == "description" && f[3].0 == "github_url"
         && f[4].0 == "demo_url" && f[5].0 == "image_url" && f[6].0 == "created_at"
         && f[7].0 == "updated_at" && f[8].0 == "technologies" && f[9].0 == "demo_media"
         && id.Some? && f[1].1.JStr? && f[2].1.JStr? && gh.Some? && dm.Some? && im.Some?
         && cr.Some? && up.Some? && names.Some? && demos.Some?
      then
        Some(ProjectView(
          Project(id.value, f[1].1.s, f[2].1.s, gh.value, dm.value, im.value, cr.value, up.value),
          names.value, demos.value))
      else None
  }

  /**
   * `ProjectFromDict` inverts `ProjectToDict`: the dictionary keeps every column of
   * the project, the names of its technologies in order, and every demo item.
   */
  lemma ProjectDictRoundTrip(p: Project, techs: seq<Technology>, demos: seq<Demo>)
    ensures ProjectFromDict(ProjectToDict(p, techs, demos)) == Some(ProjectView(p, TechNames(techs), demos))
  {
    StrArrayRoundTrip(TechNames(techs));
    DemoArrayRoundTrip(demos);
    ProjectDictHead(p, techs, demos);
    ProjectDictTail(p, techs, demos);
    ProjectFromFields(ProjectToDict(p, techs, demos).fields, p, TechNames(techs), demos);
  }

  /** The first five fields `to_dict` writes. */
  lemma ProjectDictHead(p: Project, techs: seq<Technology>, demos: seq<Demo>)
    ensures var f := ProjectToDict(p, techs, demos).fields;
      |f| == 10
      && f[0] == ("id", OptNat(p.id)) && f[1] == ("title", JStr(p.title))
      && f[2] == ("description", JStr(p.description)) && f[3] == ("github_url", OptStr(p.githubUrl))
      && f[4] == ("demo_url", OptStr(p.demoUrl))
  {
  }

  /** The last five fields `to_dict` writes. */
  lemma ProjectDictTail(p: Project, techs: seq<Technology>, demos: seq<Demo>)
    ensures var f := ProjectToDict(p, techs, demos).fields;
      |f| == 10
      && f[5] == ("image_url", OptStr(p.imageUrl))
      && f[6] == ("created_at", OptTime(p.createdAt)) && f[7] == ("updated_at", OptTime(p.updatedAt))
      && f[8] == ("technologies", JArray(StrArray(TechNames(techs))))
      && f[9] == ("demo_media", JArray(DemoArray(demos)))
  {
  }

  /** A dictionary with the fields `to_dict` writes, in its order, reads back as the project. */
  lemma ProjectFromFields(f: seq<(string, Json)>, p: Project, names: seq<string>, demos: seq<Demo>)
    requires |f| == 10
    requires f[0] == ("id", OptNat(p.id)) && f[1] == ("title", JStr(p.title))
    requires f[2] == ("description", JStr(p.description)) && f[3] == ("github_url", OptStr(p.githubUrl))
    requires f[4] == ("demo_url", OptStr(p.demoUrl)) && f[5] == ("image_url", OptStr(p.imageUrl))
    requires f[6] == ("created_at", OptTime(p.createdAt)) && f[7] == ("updated_at", OptTime(p.updatedAt))
    requires f[8].0 == "technologies" && f[8].1.JArray? && NamesFromArray(f[8].1.items) == Some(names)
    requires f[9].0 == "demo_media" && f[9].1.JArray? && DemosFromArray(f[9].1.items) == Some(demos)
    ensures ProjectFromDict(JObject(f)) == Some(ProjectView(p, names, demos))
  {
  }
}
