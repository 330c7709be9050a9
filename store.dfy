/**
 * The project store behind the web handlers: a table of projects with their
 * technology rows and demo items, the add, edit and delete handlers as all-or-nothing
 * transactions over it, the lookups of the detail and edit pages, and the
 * newest-first listing of the home page and of `/api/projects`.
 */
module Store {
  import opened Wrappers
  import opened Models
  import opened TechList

  /** The contents of the database, with the next value of each id sequence. */
  datatype Tables = Tables(
    projects: seq<Project>,
    technologies: seq<Technology>,
    demos: seq<Demo>,
    nextProjectId: nat,
    nextTechnologyId: nat)

  /** A submitted form: field name to value. */
  type Form = map<string, string>

  /** `request.form.get(key, '')`. */
  function FormGet(form: Form, key: string): string
  {
    if key in form then form[key] else ""
  }

  /**
   * How a handler ends: its transaction committed, it raised and rolled back (the
   * handler flashes the error), or the project did not exist (a 404 page).
   */
  datatype Outcome = Committed(id: nat) | RolledBack | NotFound

  // ---------------------------------------------------------------------------
  // Queries
  // ---------------------------------------------------------------------------

  predicate HasProject(ps: seq<Project>, id: nat)
  {
    exists p :: p in ps && p.id == Some(id)
  }

  /** The position of the first project with the given id. */
  function FindProject(ps: seq<Project>, id: nat): (r: Option<nat>)
    ensures r.None? <==> !HasProject(ps, id)
    ensures r.Some? ==> r.value < |ps| && ps[r.value].id == Some(id)
    decreases |ps|
  {
    if |ps| == 0 then
      None
    else if ps[0].id == Some(id) then
      Some(0)
    else
      match FindProject(ps[1..], id)
      case None =>
        assert forall p :: p in ps ==> p == ps[0] || p in ps[1..];
        None
      case Some(k) =>
        assert ps[1..][k] in ps;
        Some(k + 1)
  }

  /** `Project.query.get_or_404(id)`: the project, or `None` for the 404 page. */
  function GetOr404(t: Tables, id: nat): (r: Option<Project>)
    ensures r.Some? <==> HasProject(t.projects, id)
    ensures r.Some? ==> r.value in t.projects && r.value.id == Some(id)
  {
    match FindProject(t.projects, id)
    case Some(k) => Some(t.projects[k])
    case None => None
  }

  /** The `technologies` relationship of a project: its rows, in table order. */
  function TechnologiesOf(techs: seq<Technology>, id: nat): (r: seq<Technology>)
    ensures forall x :: x in r <==> x in techs && x.projectId == id
    decreases |techs|
  {
    if |techs| == 0 then []
    else (if techs[0].projectId == id then [techs[0]] else []) + TechnologiesOf(techs[1..], id)
  }

  /** The rows left by `Technology.query.filter_by(project_id=id).delete()`. */
  function TechnologiesNotOf(techs: seq<Technology>, id: nat): (r: seq<Technology>)
    ensures forall x :: x in r <==> x in techs && x.projectId != id
    decreases |techs|
  {
    if |techs| == 0 then []
    else (if techs[0].projectId != id then [techs[0]] else []) + TechnologiesNotOf(techs[1..], id)
  }

  /** The `demo_media` relationship of a project. */
  function DemosOf(demos: seq<Demo>, id: nat): (r: seq<Demo>)
    ensures forall x :: x in r <==> x in demos && x.projectId == id
    decreases |demos|
  {
    if |demos| == 0 then []
    else (if demos[0].projectId == id then [demos[0]] else []) + DemosOf(demos[1..], id)
  }

  /** The demo items of every other project. */
  function DemosNotOf(demos: seq<Demo>, id: nat): (r: seq<Demo>)
    ensures forall x :: x in r <==> x in demos && x.projectId != id
    decreases |demos|
  {
    if |demos| == 0 then []
    else (if demos[0].projectId != id then [demos[0]] else []) + DemosNotOf(demos[1..], id)
  }

  /** The technology string the edit page prefills, or `None` for the 404 page. */
  function EditFormString(t: Tables, id: nat): (r: Option<string>)
    ensures r.Some? <==> HasProject(t.projects, id)
  {
    if HasProject(t.projects, id) then Some(JoinTechnologies(TechNames(TechnologiesOf(t.technologies, id))))
    else None
  }

  // ---------------------------------------------------------------------------
  // Ordering by `created_at` descending
  // ---------------------------------------------------------------------------

  /**
   * `a` may come before `b` in a descending order on `created_at`; an unset
   * timestamp is NULL, which a descending order puts first.
   */
  predicate NewerFirst(a: Project, b: Project)
  {
    a.createdAt.None? || (b.createdAt.Some? && a.createdAt.value >= b.createdAt.value)
  }

  predicate SortedNewestFirst(s: seq<Project>)
  {
    forall i, j :: 0 <= i < j < |s| ==> NewerFirst(s[i], s[j])
  }

  /** A project newer than every element of a sorted list can go in front of it. */
  lemma SortedCons(x: Project, s: seq<Project>)
    requires SortedNewestFirst(s)
    requires forall y :: y in s ==> NewerFirst(x, y)
    ensures SortedNewestFirst([x] + s)
  {
    var r := [x] + s;
    forall i, j | 0 <= i < j < |r|
      ensures NewerFirst(r[i], r[j])
    {
      if i == 0 {
        assert r[j] == s[j - 1];
      } else {
        assert r[i] == s[i - 1] && r[j] == s[j - 1];
      }
    }
  }

  function InsertNewestFirst(p: Project, s: seq<Project>): (r: seq<Project>)
    requires SortedNewestFirst(s)
    ensures SortedNewestFirst(r)
    ensures multiset(r) == multiset(s) + multiset{p}
    decreases |s|
  {
    if |s| == 0 || NewerFirst(p, s[0]) then
      assert forall y :: y in s ==> NewerFirst(p, y) by {
        forall y | y in s
          ensures NewerFirst(p, y)
        {
          var j :| 0 <= j < |s| && s[j] == y;
          if j > 0 {
            assert NewerFirst(s[0], s[j]);
          }
        }
      }
      SortedCons(p, s);
      [p] + s
    else
      var rest := InsertNewestFirst(p, s[1..]);
      assert s == [s[0]] + s[1..];
      assert forall y :: y in rest ==> NewerFirst(s[0], y) by {
        forall y | y in rest
          ensures NewerFirst(s[0], y)
        {
          assert y in multiset(rest);
          if y != p {
            var j :| 0 <= j < |s[1..]| && s[1..][j] == y;
            assert s[j + 1] == y;
          }
        }
      }
      SortedCons(s[0], rest);
      [s[0]] + rest
  }

  /** `order_by(Project.created_at.desc())`: the projects, newest first. */
  function NewestFirst(ps: seq<Project>): (r: seq<Project>)
    ensures SortedNewestFirst(r)
    ensures multiset(r) == multiset(ps)
    decreases |ps|
  {
    if |ps| == 0 then []
    else
      assert ps == [ps[0]] + ps[1..];
      InsertNewestFirst(ps[0], NewestFirst(ps[1..]))
  }

  /** The projects the home page shows, in order. */
  function HomeProjects(t: Tables): (r: seq<Project>)
    ensures SortedNewestFirst(r)
    ensures multiset(r) == multiset(t.projects)
  {
    NewestFirst(t.projects)
  }

  /** `jsonify([project.to_dict() for project in projects])` of `/api/projects`. */
  function ApiProjects(t: Tables): (j: Json)
    ensures j.JArray? && |j.items| == |t.projects|
  {
    var ps := NewestFirst(t.projects);
    assert |ps| == |multiset(ps)| == |multiset(t.projects)| == |t.projects|;
    JArray(seq(|ps|, k requires 0 <= k < |ps| =>
      ProjectToDict(ps[k], TechnologiesOf(t.technologies, ps[k].id.GetOr(0)), DemosOf(t.demos, ps[k].id.GetOr(0)))))
  }

  // ---------------------------------------------------------------------------
  // Well-formed tables
  // ---------------------------------------------------------------------------

  predicate DistinctProjectIds(ps: seq<Project>)
  {
    forall i, j :: 0 <= i < |ps| && 0 <= j < |ps| && i != j ==> ps[i].id != ps[j].id
  }

  predicate DistinctTechnologyIds(ts: seq<Technology>)
  {
    forall i, j :: 0 <= i < |ts| && 0 <= j < |ts| && i != j ==> ts[i].id != ts[j].id
  }

  /**
   * What the schema and the id sequences guarantee: every row has been inserted
   * (an id, and a project's timestamps), ids are unique and below the next value of
   * their sequence, every technology row and demo item belongs to an existing
   * project, and every string fits its column.
   */
  predicate ValidTables(t: Tables)
  {
    && (forall p :: p in t.projects ==>
          p.id.Some? && p.id.value < t.nextProjectId && p.createdAt.Some? && p.updatedAt.Some? && ProjectFits(p))
    && DistinctProjectIds(t.projects)
    && (forall x :: x in t.technologies ==>
          x.id.Some? && x.id.value < t.nextTechnologyId && HasProject(t.projects, x.projectId) && TechnologyFits(x))
    && DistinctTechnologyIds(t.technologies)
    && (forall d :: d in t.demos ==> HasProject(t.projects, d.projectId) && DemoFits(d))
  }

  // ---------------------------------------------------------------------------
  // The handlers as transactions
  // ---------------------------------------------------------------------------

  /** The technology rows inserted for `names`, with ids taken from the sequence from `first` on. */
  function Rows(pid: nat, names: seq<string>, first: nat): (r: seq<Technology>)
    ensures |r| == |names|
    ensures forall k :: 0 <= k < |names| ==> r[k] == Technology(Some(first + k), names[k], pid)
  {
    seq(|names|, k requires 0 <= k < |names| => Technology(Some(first + k), names[k], pid))
  }

  predicate RowsFit(rows: seq<Technology>)
  {
    forall x :: x in rows ==> TechnologyFits(x)
  }

  /** The project an accepted add form creates, as it is inserted. */
  function AddedProject(form: Form, pid: nat, now: Time): (p: Project)
    requires "title" in form && "description" in form
  {
    NewProject(form["title"], form["description"],
               FormGet(form, "github_url"), FormGet(form, "demo_url"), FormGet(form, "image_url"))
      .(id := Some(pid), createdAt := Some(now), updatedAt := Some(now))
  }

  /** A project after an accepted edit form. */
  function EditedProject(p: Project, form: Form, now: Time): (q: Project)
    requires "title" in form && "description" in form
  {
    p.(title := form["title"], description := form["description"],
       githubUrl := Some(FormGet(form, "github_url")), demoUrl := Some(FormGet(form, "demo_url")),
       imageUrl := Some(FormGet(form, "image_url")), updatedAt := Some(now))
  }

  /**
   * `add_project` on a POST. A missing `title` or `description` raises before
   * anything is written; otherwise the project is inserted with the next id and one
   * technology row per parsed name follows. The commit goes through when the
   * database accepts it (`commitOk`) and every new string fits its column;
   * otherwise everything is rolled back.
   */
  function AddSpec(t: Tables, form: Form, now: Time, commitOk: bool): (res: (Outcome, Tables))
    ensures res.0 == Committed(t.nextProjectId) || res == (RolledBack, t)
  {
    if "title" !in form || "description" !in form then
      (RolledBack, t)
    else
      var pid := t.nextProjectId;
      var p := AddedProject(form, pid, now);
      var rows := Rows(pid, ParseTechnologies(FormGet(form, "technologies")), t.nextTechnologyId);
      if commitOk && ProjectFits(p) && RowsFit(rows) then (Committed(pid), AddedTables(t, p, rows)) else (RolledBack, t)
  }

  /** The tables after `p` was appended with its technology rows `rows`. */
  function AddedTables(t: Tables, p: Project, rows: seq<Technology>): Tables
  {
    Tables(t.projects + [p], t.technologies + rows, t.demos, t.nextProjectId + 1, t.nextTechnologyId + |rows|)
  }

  /** An add whose form has both required fields commits exactly when the rows fit and the commit succeeds. */
  lemma AddSpecAccepted(t: Tables, form: Form, now: Time, commitOk: bool)
    requires "title" in form && "description" in form
    ensures var p := AddedProject(form, t.nextProjectId, now);
      var rows := Rows(t.nextProjectId, ParseTechnologies(FormGet(form, "technologies")), t.nextTechnologyId);
      AddSpec(t, form, now, commitOk)
      == if commitOk && ProjectFits(p) && RowsFit(rows) then (Committed(t.nextProjectId), AddedTables(t, p, rows))
         else (RolledBack, t)
  {
  }

  /** The tables after the project at `k` became `p` and its technology rows became `rows`. */
  function EditedTables(t: Tables, k: nat, p: Project, rows: seq<Technology>): Tables
    requires k < |t.projects| && t.projects[k].id.Some?
  {
    t.(projects := t.projects[k := p],
       technologies := TechnologiesNotOf(t.technologies, t.projects[k].id.value) + rows,
       nextTechnologyId := t.nextTechnologyId + |rows|)
  }

  /**
   * `edit_project` on a POST. A missing project is a 404 before the transaction
   * starts. Otherwise the fields are overwritten, `updated_at` advances to `now`, all
   * of the project's technology rows are deleted and one row per parsed name is
   * inserted; a missing `title` or `description`, a refused commit or a string too
   * long for its column rolls all of it back.
   */
  function EditSpec(t: Tables, id: nat, form: Form, now: Time, commitOk: bool): (res: (Outcome, Tables))
    ensures res.0 == Committed(id) || res == (RolledBack, t) || res == (NotFound, t)
  {
    match FindProject(t.projects, id)
    case None => (NotFound, t)
    case Some(k) =>
      if "title" !in form || "description" !in form then
        (RolledBack, t)
      else
        var p := EditedProject(t.projects[k], form, now);
        var rows := Rows(id, ParseTechnologies(FormGet(form, "technologies")), t.nextTechnologyId);
        var t' := EditedTables(t, k, p, rows);
        if commitOk && ProjectFits(p) && RowsFit(rows) then (Committed(id), t') else (RolledBack, t)
  }

  /**
   * `delete_project`. The lookup sits inside the `try`, so a missing project is
   * caught like any other error: rolled back and flashed, not a 404. Otherwise the
   * project is deleted and the cascade on both relationships deletes its technology
   * rows and demo items.
   */
  function DeleteSpec(t: Tables, id: nat, commitOk: bool): (res: (Outcome, Tables))
    ensures res.0 == Committed(id) || res == (RolledBack, t)
  {
    match FindProject(t.projects, id)
    case None => (RolledBack, t)
    case Some(k) =>
      var t' := t.(projects := t.projects[..k] + t.projects[k + 1..],
                   technologies := TechnologiesNotOf(t.technologies, id),
                   demos := DemosNotOf(t.demos, id));
      if commitOk then (Committed(id), t') else (RolledBack, t)
  }

  // ---------------------------------------------------------------------------
  // The session, updated in place
  // ---------------------------------------------------------------------------

  /** The database as the handlers' session sees it: tables changed one statement at a time. */
  class Database {
    var projects: seq<Project>
    var technologies: seq<Technology>
    var demos: seq<Demo>
    var nextProjectId: nat
    var nextTechnologyId: nat

    function Contents(): Tables
      reads this
    {
      Tables(projects, technologies, demos, nextProjectId, nextTechnologyId)
    }

    constructor (t: Tables)
      ensures Contents() == t
    {
      projects := t.projects;
      technologies := t.technologies;
      demos := t.demos;
      nextProjectId := t.nextProjectId;
      nextTechnologyId := t.nextTechnologyId;
    }

    /** `db.session.rollback()`: back to the contents the transaction started from. */
    method Rollback(snapshot: Tables)
      modifies this
      ensures Contents() == snapshot
    {
      projects := snapshot.projects;
      technologies := snapshot.technologies;
      demos := snapshot.demos;
      nextProjectId := snapshot.nextProjectId;
      nextTechnologyId := snapshot.nextTechnologyId;
    }

    /** `Technology(name=…, project_id=pid)` added for each name, in order. */
    method AddTechnologies(pid: nat, names: seq<string>)
      modifies this
      ensures technologies == old(technologies) + Rows(pid, names, old(nextTechnologyId))
      ensures nextTechnologyId == old(nextTechnologyId) + |names|
      ensures projects == old(projects) && demos == old(demos) && nextProjectId == old(nextProjectId)
    {
      var i := 0;
      while i < |names|
        invariant 0 <= i <= |names|
        invariant technologies == old(technologies) + Rows(pid, names[..i], old(nextTechnologyId))
        invariant nextTechnologyId == old(nextTechnologyId) + i
        invariant projects == old(projects) && demos == old(demos) && nextProjectId == old(nextProjectId)
      {
        technologies := technologies + [Technology(Some(nextTechnologyId), names[i], pid)];
        nextTechnologyId := nextTechnologyId + 1;
        assert Rows(pid, names[..i + 1], old(nextTechnologyId))
            == Rows(pid, names[..i], old(nextTechnologyId)) + [Technology(Some(old(nextTechnologyId) + i), names[i], pid)];
        i := i + 1;
      }
      assert names[..i] == names;
    }

    method AddProject(form: Form, now: Time, commitOk: bool) returns (outcome: Outcome)
      modifies this
      ensures (outcome, Contents()) == AddSpec(old(Contents()), form, now, commitOk)
    {
      var snapshot := Contents();
      if "title" !in form || "description" !in form {
        return RolledBack;
      }
      var p := NewProject(form["title"], form["description"],
                          FormGet(form, "github_url"), FormGet(form, "demo_url"), FormGet(form, "image_url"));
      // `add` and `flush`: the row gets its id and its default timestamps.
      var pid := nextProjectId;
      p := p.(id := Some(pid), createdAt := Some(now), updatedAt := Some(now));
      projects := projects + [p];
      nextProjectId := nextProjectId + 1;
      var names := ParseTechnologies(FormGet(form, "technologies"));
      AddTechnologies(pid, names);
      var rows := Rows(pid, names, snapshot.nextTechnologyId);
      AddSpecAccepted(snapshot, form, now, commitOk);
      assert p == AddedProject(form, pid, now);
      assert Contents() == AddedTables(snapshot, p, rows);
      if commitOk && ProjectFits(p) && RowsFit(rows) {
        outcome := Committed(pid);
      } else {
        Rollback(snapshot);
        outcome := RolledBack;
      }
    }

    method EditProject(id: nat, form: Form, now: Time, commitOk: bool) returns (outcome: Outcome)
      modifies this
      ensures (outcome, Contents()) == EditSpec(old(Contents()), id, form, now, commitOk)
    {
      var snapshot := Contents();
      var found := FindProject(projects, id);
      if found.None? {
        return NotFound;
      }
      var k := found.value;
      if "title" !in form {
        return RolledBack;
      }
      projects := projects[k := projects[k].(title := form["title"])];
      if "description" !in form {
        Rollback(snapshot);
        return RolledBack;
      }
      var p := projects[k].(description := form["description"],
                            githubUrl := Some(FormGet(form, "github_url")),
                            demoUrl := Some(FormGet(form, "demo_url")),
                            imageUrl := Some(FormGet(form, "image_url")),
                            updatedAt := Some(now));
      projects := projects[k := p];
      technologies := TechnologiesNotOf(technologies, id);
      var names := ParseTechnologies(FormGet(form, "technologies"));
      AddTechnologies(id, names);
      var rows := Rows(id, names, snapshot.nextTechnologyId);
      assert p == EditedProject(snapshot.projects[k], form, now);
      assert Contents() == EditedTables(snapshot, k, p, rows);
      if commitOk && ProjectFits(p) && RowsFit(rows) {
        outcome := Committed(id);
      } else {
        Rollback(snapshot);
        outcome := RolledBack;
      }
    }

    method DeleteProject(id: nat, commitOk: bool) returns (outcome: Outcome)
      modifies this
      ensures (outcome, Contents()) == DeleteSpec(old(Contents()), id, commitOk)
    {
      var snapshot := Contents();
      var found := FindProject(projects, id);
      if found.None? {
        return RolledBack;
      }
      var k := found.value;
      projects := projects[..k] + projects[k + 1..];
      technologies := TechnologiesNotOf(technologies, id);
      demos := DemosNotOf(demos, id);
      if commitOk {
        outcome := Committed(id);
      } else {
        Rollback(snapshot);
        outcome := RolledBack;
      }
    }
  }
}
