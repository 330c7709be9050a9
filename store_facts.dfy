/**
 * What the add, edit and delete handlers promise about the tables: the fields they
 * write, the technology rows a project ends up with, what they leave alone, the
 * cascade of a delete, the rollback on failure, and that well-formed tables stay
 * well-formed.
 */
module StoreFacts {
  import opened Wrappers
  import opened Models
  import opened TechList
  import opened Store

  // ---------------------------------------------------------------------------
  // The relationships of a project over changed technology tables
  // ---------------------------------------------------------------------------

  lemma {:induction false} TechnologiesOfConcat(a: seq<Technology>, b: seq<Technology>, q: nat)
    ensures TechnologiesOf(a + b, q) == TechnologiesOf(a, q) + TechnologiesOf(b, q)
    decreases |a|
  {
    if |a| == 0 {
      assert a + b == b;
    } else {
      assert (a + b)[0] == a[0];
      assert (a + b)[1..] == a[1..] + b;
      TechnologiesOfConcat(a[1..], b, q);
    }
  }

  /** After the bulk delete of one project's rows, that project has none and every other keeps its own. */
  lemma {:induction false} TechnologiesOfNotOf(techs: seq<Technology>, id: nat, q: nat)
    ensures TechnologiesOf(TechnologiesNotOf(techs, id), q) == if q == id then [] else TechnologiesOf(techs, q)
    decreases |techs|
  {
    if |techs| > 0 {
      TechnologiesOfNotOf(techs[1..], id, q);
      var head := if techs[0].projectId != id then [techs[0]] else [];
      TechnologiesOfConcat(head, TechnologiesNotOf(techs[1..], id), q);
    }
  }

  /** The rows inserted for a project belong to it alone, in insertion order. */
  lemma {:induction false} TechnologiesOfRows(pid: nat, names: seq<string>, first: nat, q: nat)
    ensures TechnologiesOf(Rows(pid, names, first), q) == if q == pid then Rows(pid, names, first) else []
    decreases |names|
  {
    var rows := Rows(pid, names, first);
    if |names| > 0 {
      var tail := Rows(pid, names[1..], first + 1);
      assert rows[1..] == tail;
      TechnologiesOfRows(pid, names[1..], first + 1, q);
      assert rows[0].projectId == pid;
      assert TechnologiesOf(rows, q) == (if q == pid then [rows[0]] else []) + TechnologiesOf(tail, q);
      if q == pid {
        assert rows == [rows[0]] + tail;
      } else {
        assert TechnologiesOf(rows, q) == [] + [];
      }
    }
  }

  /** A project no row points to has no technologies. */
  lemma {:induction false} TechnologiesOfNone(techs: seq<Technology>, q: nat)
    requires forall x :: x in techs ==> x.projectId != q
    ensures TechnologiesOf(techs, q) == []
    decreases |techs|
  {
    if |techs| > 0 {
      assert techs[0] in techs;
      TechnologiesOfNone(techs[1..], q);
    }
  }

  lemma {:induction false} DemosOfNotOf(demos: seq<Demo>, id: nat, q: nat)
    ensures DemosOf(DemosNotOf(demos, id), q) == if q == id then [] else DemosOf(demos, q)
    decreases |demos|
  {
    if |demos| > 0 {
      DemosOfNotOf(demos[1..], id, q);
      var head := if demos[0].projectId != id then [demos[0]] else [];
      DemosOfConcat(head, DemosNotOf(demos[1..], id), q);
    }
  }

  lemma {:induction false} DemosOfConcat(a: seq<Demo>, b: seq<Demo>, q: nat)
    ensures DemosOf(a + b, q) == DemosOf(a, q) + DemosOf(b, q)
    decreases |a|
  {
    if |a| == 0 {
      assert a + b == b;
    } else {
      assert (a + b)[0] == a[0];
      assert (a + b)[1..] == a[1..] + b;
      DemosOfConcat(a[1..], b, q);
    }
  }

  // ---------------------------------------------------------------------------
  // Add
  // ---------------------------------------------------------------------------

  /**
   * A committed add appends one project with the next id, the form's title and
   * description, each URL from the form or `""` when the field is absent, and both
   * timestamps at `now`; the new project's technologies are exactly the parsed
   * names, in order; every other project's technology rows and all demo items are
   * unchanged.
   */
  lemma AddCommitted(t: Tables, form: Form, now: Time, commitOk: bool)
    requires ValidTables(t)
    requires AddSpec(t, form, now, commitOk).0.Committed?
    ensures var t' := AddSpec(t, form, now, commitOk).1;
      var pid := t.nextProjectId;
      && "title" in form && "description" in form
      && |t'.projects| == |t.projects| + 1 && t'.projects[..|t.projects|] == t.projects
      && t'.projects[|t.projects|].id == Some(pid)
      && t'.projects[|t.projects|].title == form["title"]
      && t'.projects[|t.projects|].description == form["description"]
      && t'.projects[|t.projects|].githubUrl == Some(if "github_url" in form then form["github_url"] else "")
      && t'.projects[|t.projects|].demoUrl == Some(if "demo_url" in form then form["demo_url"] else "")
      && t'.projects[|t.projects|].imageUrl == Some(if "image_url" in form then form["image_url"] else "")
      && t'.projects[|t.projects|].createdAt == Some(now)
      && t'.projects[|t.projects|].updatedAt == Some(now)
      && TechNames(TechnologiesOf(t'.technologies, pid)) == ParseTechnologies(FormGet(form, "technologies"))
      && (forall q :: q != pid ==> TechnologiesOf(t'.technologies, q) == TechnologiesOf(t.technologies, q))
      && t'.demos == t.demos
  {
    var pid := t.nextProjectId;
    var names := ParseTechnologies(FormGet(form, "technologies"));
    var rows := Rows(pid, names, t.nextTechnologyId);
    var t' := AddSpec(t, form, now, commitOk).1;
    assert t'.technologies == t.technologies + rows;
    assert (t.projects + [t'.projects[|t.projects|]])[..|t.projects|] == t.projects;
    forall q
      ensures TechnologiesOf(t'.technologies, q) == TechnologiesOf(t.technologies, q) + (if q == pid then rows else [])
    {
      TechnologiesOfConcat(t.technologies, rows, q);
      TechnologiesOfRows(pid, names, t.nextTechnologyId, q);
    }
    assert forall x :: x in t.technologies ==> x.projectId != pid by {
      forall x | x in t.technologies
        ensures x.projectId != pid
      {
        var p :| p in t.projects && p.id == Some(x.projectId);
      }
    }
    TechnologiesOfNone(t.technologies, pid);
    assert TechnologiesOf(t'.technologies, pid) == rows;
  }

  /** An empty or absent technology field adds no technology rows. */
  lemma AddWithoutTechnologies(t: Tables, form: Form, now: Time, commitOk: bool)
    requires FormGet(form, "technologies") == ""
    ensures AddSpec(t, form, now, commitOk).1.technologies == t.technologies
  {
    if "title" in form && "description" in form {
      assert Rows(t.nextProjectId, [], t.nextTechnologyId) == [];
      assert t.technologies + [] == t.technologies;
    }
  }

  /** A missing required field or a refused commit leaves the tables as they were. */
  lemma AddRollsBack(t: Tables, form: Form, now: Time, commitOk: bool)
    requires "title" !in form || "description" !in form || !commitOk
    ensures AddSpec(t, form, now, commitOk) == (RolledBack, t)
  {
  }

  // ---------------------------------------------------------------------------
  // Edit
  // ---------------------------------------------------------------------------

  /**
   * A committed edit overwrites the project's fields from the form (URLs defaulting
   * to `""`), keeps its id and creation time, advances `updated_at` to `now`, leaves
   * every other project, every other project's technology rows and all demo items
   * alone, and leaves the project with exactly the parsed technology names: none of
   * its earlier rows survive.
   */
  lemma EditCommitted(t: Tables, id: nat, form: Form, now: Time, commitOk: bool)
    requires EditSpec(t, id, form, now, commitOk).0.Committed?
    ensures HasProject(t.projects, id)
    ensures var t' := EditSpec(t, id, form, now, commitOk).1;
      var k := FindProject(t.projects, id).value;
      && "title" in form && "description" in form
      && |t'.projects| == |t.projects|
      && (forall j :: 0 <= j < |t.projects| && j != k ==> t'.projects[j] == t.projects[j])
      && t'.projects[k].id == Some(id)
      && t'.projects[k].title == form["title"]
      && t'.projects[k].description == form["description"]
      && t'.projects[k].githubUrl == Some(if "github_url" in form then form["github_url"] else "")
      && t'.projects[k].demoUrl == Some(if "demo_url" in form then form["demo_url"] else "")
      && t'.projects[k].imageUrl == Some(if "image_url" in form then form["image_url"] else "")
      && t'.projects[k].createdAt == t.projects[k].createdAt
      && t'.projects[k].updatedAt == Some(now)
      && TechNames(TechnologiesOf(t'.technologies, id)) == ParseTechnologies(FormGet(form, "technologies"))
      && (forall q :: q != id ==> TechnologiesOf(t'.technologies, q) == TechnologiesOf(t.technologies, q))
      && t'.demos == t.demos
  {
    var k := FindProject(t.projects, id).value;
    var names := ParseTechnologies(FormGet(form, "technologies"));
    var rows := Rows(id, names, t.nextTechnologyId);
    var t' := EditSpec(t, id, form, now, commitOk).1;
    assert t'.technologies == TechnologiesNotOf(t.technologies, id) + rows;
    forall q
      ensures TechnologiesOf(t'.technologies, q) == if q == id then rows else TechnologiesOf(t.technologies, q)
    {
      TechnologiesOfConcat(TechnologiesNotOf(t.technologies, id), rows, q);
      TechnologiesOfNotOf(t.technologies, id, q);
      TechnologiesOfRows(id, names, t.nextTechnologyId, q);
      assert [] + rows == rows;
      assert TechnologiesOf(t.technologies, q) + [] == TechnologiesOf(t.technologies, q);
    }
  }

  /** Editing with an empty technology field leaves the project without technologies. */
  lemma EditClearsTechnologies(t: Tables, id: nat, form: Form, now: Time, commitOk: bool)
    requires EditSpec(t, id, form, now, commitOk).0.Committed?
    requires FormGet(form, "technologies") == ""
    ensures TechnologiesOf(EditSpec(t, id, form, now, commitOk).1.technologies, id) == []
  {
    EditCommitted(t, id, form, now, commitOk);
  }

  /** Editing a project that does not exist is a 404 and changes nothing. */
  lemma EditNotFound(t: Tables, id: nat, form: Form, now: Time, commitOk: bool)
    requires !HasProject(t.projects, id)
    ensures EditSpec(t, id, form, now, commitOk) == (NotFound, t)
  {
  }

  /** A missing required field or a refused commit leaves the tables as they were. */
  lemma EditRollsBack(t: Tables, id: nat, form: Form, now: Time, commitOk: bool)
    requires HasProject(t.projects, id)
    requires "title" !in form || "description" !in form || !commitOk
    ensures EditSpec(t, id, form, now, commitOk) == (RolledBack, t)
  {
  }

  /**
   * The edit page round trip: after a committed add or edit, the technology string
   * the edit page prefills parses back to the names that were submitted.
   */
  lemma EditFormRoundTrip(t: Tables, id: nat, form: Form, now: Time, commitOk: bool)
    requires EditSpec(t, id, form, now, commitOk).0.Committed?
    ensures var t' := EditSpec(t, id, form, now, commitOk).1;
      EditFormString(t', id).Some?
      && ParseTechnologies(EditFormString(t', id).value) == ParseTechnologies(FormGet(form, "technologies"))
  {
    EditCommitted(t, id, form, now, commitOk);
    var t' := EditSpec(t, id, form, now, commitOk).1;
    var k := FindProject(t.projects, id).value;
    assert t'.projects[k] in t'.projects;
    JoinParseRoundTrip(ParseTechnologies(FormGet(form, "technologies")));
  }

  lemma AddFormRoundTrip(t: Tables, form: Form, now: Time, commitOk: bool)
    requires ValidTables(t)
    requires AddSpec(t, form, now, commitOk).0.Committed?
    ensures var t' := AddSpec(t, form, now, commitOk).1;
      EditFormString(t', t.nextProjectId).Some?
      && ParseTechnologies(EditFormString(t', t.nextProjectId).value) == ParseTechnologies(FormGet(form, "technologies"))
  {
    AddCommitted(t, form, now, commitOk);
    var t' := AddSpec(t, form, now, commitOk).1;
    assert t'.projects[|t.projects|] in t'.projects;
    JoinParseRoundTrip(ParseTechnologies(FormGet(form, "technologies")));
  }

  // ---------------------------------------------------------------------------
  // Delete
  // ---------------------------------------------------------------------------

  /**
   * A committed delete removes the project and nothing else from `projects`, and
   * the cascade removes all of its technology rows and demo items while every other
   * project keeps its own.
   */
  lemma DeleteCommitted(t: Tables, id: nat, commitOk: bool)
    requires ValidTables(t)
    requires DeleteSpec(t, id, commitOk).0.Committed?
    ensures var t' := DeleteSpec(t, id, commitOk).1;
      && (forall p :: p in t'.projects <==> p in t.projects && p.id != Some(id))
      && !HasProject(t'.projects, id)
      && TechnologiesOf(t'.technologies, id) == []
      && DemosOf(t'.demos, id) == []
      && (forall q :: q != id ==> TechnologiesOf(t'.technologies, q) == TechnologiesOf(t.technologies, q))
      && (forall q :: q != id ==> DemosOf(t'.demos, q) == DemosOf(t.demos, q))
  {
    var k := FindProject(t.projects, id).value;
    var t' := DeleteSpec(t, id, commitOk).1;
    assert t'.projects == t.projects[..k] + t.projects[k + 1..];
    RemoveAtMembers(t.projects, k);
    DeleteCascades(t, id);
  }

  /** The cascade of a delete: the project's rows and items go, every other project keeps its own. */
  lemma DeleteCascades(t: Tables, id: nat)
    ensures forall q :: TechnologiesOf(TechnologiesNotOf(t.technologies, id), q)
                        == if q == id then [] else TechnologiesOf(t.technologies, q)
    ensures forall q :: DemosOf(DemosNotOf(t.demos, id), q) == if q == id then [] else DemosOf(t.demos, q)
  {
    forall q
      ensures TechnologiesOf(TechnologiesNotOf(t.technologies, id), q)
              == if q == id then [] else TechnologiesOf(t.technologies, q)
      ensures DemosOf(DemosNotOf(t.demos, id), q) == if q == id then [] else DemosOf(t.demos, q)
    {
      TechnologiesOfNotOf(t.technologies, id, q);
      DemosOfNotOf(t.demos, id, q);
    }
  }

  /** Removing the project at `k` from projects with unique ids removes exactly those with its id. */
  lemma RemoveAtMembers(ps: seq<Project>, k: nat)
    requires k < |ps| && DistinctProjectIds(ps)
    ensures forall p :: p in ps[..k] + ps[k + 1..] <==> p in ps && p.id != ps[k].id
  {
    var rest := ps[..k] + ps[k + 1..];
    forall p
      ensures p in rest <==> p in ps && p.id != ps[k].id
    {
      if p in rest {
        var j :| 0 <= j < |rest| && rest[j] == p;
        RemoveAtIndex(ps, k, j);
      }
      if p in ps && p.id != ps[k].id {
        var i :| 0 <= i < |ps| && ps[i] == p;
        assert i != k;
        assert rest[if i < k then i else i - 1] == p;
      }
    }
  }

  /** Position `j` after the removal at `k` holds what position `j` or `j + 1` held before. */
  lemma RemoveAtIndex(ps: seq<Project>, k: nat, j: nat)
    requires k < |ps| && j < |ps| - 1 && DistinctProjectIds(ps)
    ensures var i := if j < k then j else j + 1;
      (ps[..k] + ps[k + 1..])[j] == ps[i] && ps[i] in ps && ps[i].id != ps[k].id
  {
    var i := if j < k then j else j + 1;
    assert i != k;
  }

  /** Deleting a missing project is caught like any other error: nothing changes. */
  lemma DeleteMissing(t: Tables, id: nat, commitOk: bool)
    requires !HasProject(t.projects, id)
    ensures DeleteSpec(t, id, commitOk) == (RolledBack, t)
  {
  }

  /** Every handler's failure leaves the tables exactly as they were. */
  lemma FailureChangesNothing(t: Tables, id: nat, form: Form, now: Time, commitOk: bool)
    ensures !AddSpec(t, form, now, commitOk).0.Committed? ==> AddSpec(t, form, now, commitOk).1 == t
    ensures !EditSpec(t, id, form, now, commitOk).0.Committed? ==> EditSpec(t, id, form, now, commitOk).1 == t
    ensures !DeleteSpec(t, id, commitOk).0.Committed? ==> DeleteSpec(t, id, commitOk).1 == t
  {
  }

  // ---------------------------------------------------------------------------
  // Well-formed tables stay well-formed
  // ---------------------------------------------------------------------------

  lemma HasProjectAppend(ps: seq<Project>, p: Project, q: nat)
    ensures HasProject(ps, q) ==> HasProject(ps + [p], q)
    ensures p.id == Some(q) ==> HasProject(ps + [p], q)
  {
    if HasProject(ps, q) {
      var x :| x in ps && x.id == Some(q);
      assert x in ps + [p];
    }
    assert p in ps + [p];
  }

  lemma HasProjectUpdate(ps: seq<Project>, k: nat, p: Project, q: nat)
    requires k < |ps| && p.id == ps[k].id
    ensures HasProject(ps, q) ==> HasProject(ps[k := p], q)
  {
    if HasProject(ps, q) {
      var x :| x in ps && x.id == Some(q);
      var j :| 0 <= j < |ps| && ps[j] == x;
      assert ps[k := p][j].id == Some(q);
      assert ps[k := p][j] in ps[k := p];
    }
  }

  lemma HasProjectRemove(ps: seq<Project>, k: nat, q: nat)
    requires k < |ps| && ps[k].id != Some(q)
    ensures HasProject(ps, q) ==> HasProject(ps[..k] + ps[k + 1..], q)
  {
    if HasProject(ps, q) {
      var x :| x in ps && x.id == Some(q);
      var j :| 0 <= j < |ps| && ps[j] == x;
      var rest := ps[..k] + ps[k + 1..];
      assert rest[if j < k then j else j - 1] == x;
    }
  }

  lemma {:induction false} NotOfDistinct(techs: seq<Technology>, id: nat)
    requires DistinctTechnologyIds(techs)
    ensures DistinctTechnologyIds(TechnologiesNotOf(techs, id))
    decreases |techs|
  {
    if |techs| > 0 {
      var rest := TechnologiesNotOf(techs[1..], id);
      DistinctTail(techs);
      NotOfDistinct(techs[1..], id);
      if techs[0].projectId != id {
        forall y | y in rest
          ensures y.id != techs[0].id
        {
          HeadIdUnique(techs, y);
        }
        DistinctCons(techs[0], rest);
      }
    }
  }

  lemma DistinctTail(techs: seq<Technology>)
    requires |techs| > 0 && DistinctTechnologyIds(techs)
    ensures DistinctTechnologyIds(techs[1..])
  {
    forall i, j | 0 <= i < |techs[1..]| && 0 <= j < |techs[1..]| && i != j
      ensures techs[1..][i].id != techs[1..][j].id
    {
      assert techs[1..][i] == techs[i + 1] && techs[1..][j] == techs[j + 1];
    }
  }

  /** With unique ids, no later row shares the first row's id. */
  lemma HeadIdUnique(techs: seq<Technology>, y: Technology)
    requires |techs| > 0 && DistinctTechnologyIds(techs) && y in techs[1..]
    ensures y.id != techs[0].id
  {
    var n :| 0 <= n < |techs[1..]| && techs[1..][n] == y;
    assert techs[n + 1] == y;
  }

  lemma DistinctCons(x: Technology, rest: seq<Technology>)
    requires DistinctTechnologyIds(rest)
    requires forall y :: y in rest ==> y.id != x.id
    ensures DistinctTechnologyIds([x] + rest)
  {
    var r := [x] + rest;
    forall i, j | 0 <= i < |r| && 0 <= j < |r| && i != j
      ensures r[i].id != r[j].id
    {
      if i == 0 {
        assert r[j] == rest[j - 1] && r[j] in rest;
      } else if j == 0 {
        assert r[i] == rest[i - 1] && r[i] in rest;
      } else {
        assert r[i] == rest[i - 1] && r[j] == rest[j - 1];
      }
    }
  }

  /** Appending rows with fresh ids from the sequence keeps technology ids unique. */
  lemma DistinctAppendRows(techs: seq<Technology>, pid: nat, names: seq<string>, first: nat)
    requires DistinctTechnologyIds(techs)
    requires forall x :: x in techs ==> x.id.Some? && x.id.value < first
    ensures DistinctTechnologyIds(techs + Rows(pid, names, first))
  {
    var rows := Rows(pid, names, first);
    var all := techs + rows;
    forall i, j | 0 <= i < |all| && 0 <= j < |all| && i != j
      ensures all[i].id != all[j].id
    {
      if i < |techs| && j < |techs| {
      } else if i >= |techs| && j >= |techs| {
        assert all[i] == rows[i - |techs|] && all[j] == rows[j - |techs|];
      } else {
        var m, n := if i < |techs| then i else j, if i < |techs| then j else i;
        assert all[m] == techs[m] && techs[m] in techs;
        assert all[n] == rows[n - |techs|];
      }
    }
  }

  lemma AddKeepsValid(t: Tables, form: Form, now: Time, commitOk: bool)
    requires ValidTables(t)
    ensures ValidTables(AddSpec(t, form, now, commitOk).1)
  {
    var res := AddSpec(t, form, now, commitOk);
    if res.0.Committed? {
      var pid := t.nextProjectId;
      var p := AddedProject(form, pid, now);
      var rows := Rows(pid, ParseTechnologies(FormGet(form, "technologies")), t.nextTechnologyId);
      var t' := res.1;
      assert t'.projects == t.projects + [p];
      assert t'.technologies == t.technologies + rows;
      forall x | x in t'.projects
        ensures x.id.Some? && x.id.value < t'.nextProjectId && x.createdAt.Some? && x.updatedAt.Some? && ProjectFits(x)
      {
        assert x in t.projects || x == p;
      }
      forall i, j | 0 <= i < |t'.projects| && 0 <= j < |t'.projects| && i != j
        ensures t'.projects[i].id != t'.projects[j].id
      {
        if i < |t.projects| && j < |t.projects| {
        } else {
          var m := if i < |t.projects| then i else j;
          assert t'.projects[m] == t.projects[m] && t.projects[m] in t.projects;
        }
      }
      forall x | x in t'.technologies
        ensures x.id.Some? && x.id.value < t'.nextTechnologyId && HasProject(t'.projects, x.projectId) && TechnologyFits(x)
      {
        HasProjectAppend(t.projects, p, x.projectId);
        if x in rows {
          var k :| 0 <= k < |rows| && rows[k] == x;
        }
      }
      DistinctAppendRows(t.technologies, pid, ParseTechnologies(FormGet(form, "technologies")), t.nextTechnologyId);
      forall d | d in t'.demos
        ensures HasProject(t'.projects, d.projectId)
      {
        HasProjectAppend(t.projects, p, d.projectId);
      }
    }
  }

  lemma EditKeepsValid(t: Tables, id: nat, form: Form, now: Time, commitOk: bool)
    requires ValidTables(t)
    ensures ValidTables(EditSpec(t, id, form, now, commitOk).1)
  {
    var res := EditSpec(t, id, form, now, commitOk);
    if res.0.Committed? {
      var k := FindProject(t.projects, id).value;
      var p := EditedProject(t.projects[k], form, now);
      var rows := Rows(id, ParseTechnologies(FormGet(form, "technologies")), t.nextTechnologyId);
      assert res.1 == EditedTables(t, k, p, rows);
      assert ProjectFits(p) && RowsFit(rows);
      EditedTablesValid(t, k, p, rows);
    }
  }

  /** Overwriting one project's fields, keeping its id, and replacing its rows by fresh ones keeps the invariant. */
  lemma EditedTablesValid(t: Tables, k: nat, p: Project, rows: seq<Technology>)
    requires ValidTables(t) && k < |t.projects|
    requires t.projects[k].id.Some? && p.id == t.projects[k].id
    requires p.createdAt.Some? && p.updatedAt.Some? && ProjectFits(p) && RowsFit(rows)
    requires rows == Rows(p.id.value, TechNames(rows), t.nextTechnologyId)
    ensures ValidTables(EditedTables(t, k, p, rows))
  {
    var t' := EditedTables(t, k, p, rows);
    var id := p.id.value;
    UpdatedProjectsValid(t, k, p);
    NotOfDistinct(t.technologies, id);
    DistinctAppendRows(TechnologiesNotOf(t.technologies, id), id, TechNames(rows), t.nextTechnologyId);
    forall x | x in t'.technologies
      ensures x.id.Some? && x.id.value < t'.nextTechnologyId && HasProject(t'.projects, x.projectId) && TechnologyFits(x)
    {
      HasProjectUpdate(t.projects, k, p, x.projectId);
      if x in rows {
        var n :| 0 <= n < |rows| && rows[n] == x;
        assert t'.projects[k] in t'.projects;
      }
    }
    forall d | d in t'.demos
      ensures HasProject(t'.projects, d.projectId)
    {
      HasProjectUpdate(t.projects, k, p, d.projectId);
    }
  }

  /** Replacing a project by one with the same id, set timestamps and fitting strings keeps the project part of the invariant. */
  lemma UpdatedProjectsValid(t: Tables, k: nat, p: Project)
    requires ValidTables(t) && k < |t.projects|
    requires p.id == t.projects[k].id && p.createdAt.Some? && p.updatedAt.Some? && ProjectFits(p)
    ensures var ps := t.projects[k := p];
      && (forall x :: x in ps ==> x.id.Some? && x.id.value < t.nextProjectId && x.createdAt.Some? && x.updatedAt.Some? && ProjectFits(x))
      && DistinctProjectIds(ps)
  {
    var ps := t.projects[k := p];
    assert t.projects[k] in t.projects;
    forall x | x in ps
      ensures x.id.Some? && x.id.value < t.nextProjectId && x.createdAt.Some? && x.updatedAt.Some? && ProjectFits(x)
    {
      var j :| 0 <= j < |ps| && ps[j] == x;
      if j != k {
        assert t.projects[j] in t.projects;
      }
    }
    forall i, j | 0 <= i < |ps| && 0 <= j < |ps| && i != j
      ensures ps[i].id != ps[j].id
    {
      assert ps[i].id == t.projects[i].id && ps[j].id == t.projects[j].id;
    }
  }


  lemma DeleteKeepsValid(t: Tables, id: nat, commitOk: bool)
    requires ValidTables(t)
    ensures ValidTables(DeleteSpec(t, id, commitOk).1)
  {
    var res := DeleteSpec(t, id, commitOk);
    if res.0.Committed? {
      var k := FindProject(t.projects, id).value;
      var ps := t.projects;
      var t' := res.1;
      assert t'.projects == ps[..k] + ps[k + 1..];
      RemoveAtMembers(ps, k);
      RemoveAtDistinct(ps, k);
      NotOfDistinct(t.technologies, id);
      forall x | x in t'.technologies
        ensures HasProject(t'.projects, x.projectId)
      {
        HasProjectRemove(ps, k, x.projectId);
      }
      forall d | d in t'.demos
        ensures HasProject(t'.projects, d.projectId)
      {
        HasProjectRemove(ps, k, d.projectId);
      }
    }
  }

  lemma RemoveAtDistinct(ps: seq<Project>, k: nat)
    requires k < |ps| && DistinctProjectIds(ps)
    ensures DistinctProjectIds(ps[..k] + ps[k + 1..])
  {
    var rest := ps[..k] + ps[k + 1..];
    forall i, j | 0 <= i < |rest| && 0 <= j < |rest| && i != j
      ensures rest[i].id != rest[j].id
    {
      RemoveAtIndex(ps, k, i);
      RemoveAtIndex(ps, k, j);
    }
  }

  // ---------------------------------------------------------------------------
  // Listing
  // ---------------------------------------------------------------------------

  /**
   * Each item of `/api/projects` reads back as the project in that position of the
   * newest-first order, with its technology names and its demo items.
   */
  lemma ApiProjectsItem(t: Tables, k: nat)
    requires k < |t.projects|
    ensures var ps := HomeProjects(t);
      |ps| == |t.projects| && ps[k] in t.projects
      && ProjectFromDict(ApiProjects(t).items[k])
         == Some(ProjectView(ps[k], TechNames(TechnologiesOf(t.technologies, ps[k].id.GetOr(0))),
                             DemosOf(t.demos, ps[k].id.GetOr(0))))
  {
    var ps := NewestFirst(t.projects);
    assert |ps| == |multiset(ps)| == |multiset(t.projects)| == |t.projects|;
    assert ps[k] in multiset(ps);
    var id := ps[k].id.GetOr(0);
    ProjectDictRoundTrip(ps[k], TechnologiesOf(t.technologies, id), DemosOf(t.demos, id));
  }
}
