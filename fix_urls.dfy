/**
 * The one-off clean-up pass over the stored projects: every image URL that ends in
 * `?` loses its trailing question marks, the `onupdate` default of `updated_at`
 * stamps every row so rewritten, and the pass is committed as one transaction.
 */
module FixUrls {
  import opened Wrappers
  import opened Strings
  import opened Models
  import opened Store

  /** `image_url` is set, non-empty and ends in `?`: the pass rewrites it. */
  predicate NeedsFix(p: Project)
  {
    p.imageUrl.Some? && p.imageUrl.value != "" && EndsWith(p.imageUrl.value, "?")
  }

  /**
   * One project through the pass, which runs at time `now`. A project that needs a
   * fix loses exactly the trailing run of `?` from its image URL, and the URL no
   * longer ends in `?`. Because the column has changed, `updated_at` is refreshed
   * to `now` by its `onupdate` default when the change is flushed. Every other
   * project is left exactly as it is.
   */
  function FixProject(p: Project, now: Time): (q: Project)
    ensures NeedsFix(p) ==> q == p.(imageUrl := q.imageUrl, updatedAt := Some(now))
    ensures !NeedsFix(p) ==> q == p
    ensures q.imageUrl.None? <==> p.imageUrl.None?
    ensures q.imageUrl.Some? ==> !EndsWith(q.imageUrl.value, "?")
    ensures NeedsFix(p) ==> q.imageUrl != p.imageUrl
    ensures p.imageUrl.Some? ==>
      var u, v := p.imageUrl.value, q.imageUrl.value;
      |v| <= |u| && v == u[..|v|] && AllIn(u[|v|..], {'?'})
  {
    if NeedsFix(p) then
      var v := RStrip(p.imageUrl.value, {'?'});
      assert v != [] ==> v[|v| - 1] != '?';
      p.(imageUrl := Some(v), updatedAt := Some(now))
    else
      assert p.imageUrl.Some? ==> p.imageUrl.value[|p.imageUrl.value|..] == [];
      p
  }

  /** Every project through the pass, in place and in order. */
  function FixAll(ps: seq<Project>, now: Time): (r: seq<Project>)
    ensures |r| == |ps|
    ensures forall k :: 0 <= k < |ps| ==> r[k] == FixProject(ps[k], now)
  {
    seq(|ps|, k requires 0 <= k < |ps| => FixProject(ps[k], now))
  }

  /** The tables after the pass: fixed projects when the commit goes through, the old ones otherwise. */
  function FixSpec(t: Tables, now: Time, commitOk: bool): Tables
  {
    if commitOk then t.(projects := FixAll(t.projects, now)) else t
  }

  /**
   * `fix_urls.py`: the loop over every project, then the commit at time `now`, which
   * also refreshes `updated_at` on every project it rewrites; a failure rolls the
   * whole pass back.
   */
  method FixImageUrls(db: Database, now: Time, commitOk: bool)
    modifies db
    ensures db.Contents() == FixSpec(old(db.Contents()), now, commitOk)
  {
    var snapshot := db.Contents();
    var i := 0;
    while i < |db.projects|
      invariant 0 <= i <= |db.projects| == |snapshot.projects|
      invariant db.projects[..i] == FixAll(snapshot.projects[..i], now)
      invariant db.projects[i..] == snapshot.projects[i..]
      invariant db.Contents() == snapshot.(projects := db.projects)
    {
      var p := db.projects[i];
      assert p == snapshot.projects[i] by {
        assert db.projects[i..][0] == snapshot.projects[i..][0];
      }
      if p.imageUrl.Some? && p.imageUrl.value != "" && EndsWith(p.imageUrl.value, "?") {
        db.projects := db.projects[i := p.(imageUrl := Some(RStrip(p.imageUrl.value, {'?'})), updatedAt := Some(now))];
      }
      assert db.projects[i] == FixProject(snapshot.projects[i], now);
      assert db.projects[..i + 1] == db.projects[..i] + [db.projects[i]];
      assert snapshot.projects[..i + 1] == snapshot.projects[..i] + [snapshot.projects[i]];
      assert db.projects[i + 1..] == db.projects[i..][1..];
      i := i + 1;
    }
    assert db.projects == db.projects[..i] && snapshot.projects == snapshot.projects[..i];
    if !commitOk {
      db.Rollback(snapshot);
    }
  }

  /** After a committed pass no project's image URL ends in `?`. */
  lemma NoTrailingQuestionMark(t: Tables, now: Time)
    ensures forall p :: p in FixSpec(t, now, true).projects ==> p.imageUrl.None? || !EndsWith(p.imageUrl.value, "?")
  {
    var r := FixSpec(t, now, true).projects;
    forall p | p in r
      ensures p.imageUrl.None? || !EndsWith(p.imageUrl.value, "?")
    {
      var k :| 0 <= k < |r| && r[k] == p;
    }
  }

  /**
   * The pass changes `image_url` and `updated_at` only, and those two only on the
   * projects that needed a fix: the same projects in the same order with the same
   * ids, titles and every other column, the same technology rows and demo items.
   */
  lemma PassChangesOnlyImageUrls(t: Tables, now: Time, commitOk: bool)
    ensures var t' := FixSpec(t, now, commitOk);
      && |t'.projects| == |t.projects|
      && (forall k :: 0 <= k < |t.projects| ==>
            t'.projects[k] == t.projects[k].(imageUrl := t'.projects[k].imageUrl, updatedAt := t'.projects[k].updatedAt))
      && (forall k :: 0 <= k < |t.projects| && t'.projects[k] != t.projects[k] ==>
            commitOk && NeedsFix(t.projects[k]) && t'.projects[k].updatedAt == Some(now))
      && t'.technologies == t.technologies && t'.demos == t.demos
      && t'.nextProjectId == t.nextProjectId && t'.nextTechnologyId == t.nextTechnologyId
  {
  }

  /**
   * Running the pass again, at any later time, gives what running it once gives: the
   * first pass leaves nothing that needs a fix, so the second rewrites no row and
   * refreshes no timestamp.
   */
  lemma {:induction false} FixAllIdempotent(ps: seq<Project>, now: Time, later: Time)
    ensures FixAll(FixAll(ps, now), later) == FixAll(ps, now)
  {
    var once := FixAll(ps, now);
    forall k | 0 <= k < |ps|
      ensures FixAll(once, later)[k] == once[k]
    {
      assert !NeedsFix(once[k]);
    }
  }

  lemma PassIdempotent(t: Tables, now: Time, later: Time)
    ensures FixSpec(FixSpec(t, now, true), later, true) == FixSpec(t, now, true)
  {
    FixAllIdempotent(t.projects, now, later);
  }

  /** The pass keeps well-formed tables well-formed: ids stay, URLs only get shorter, and timestamps stay set. */
  lemma PassKeepsValid(t: Tables, now: Time, commitOk: bool)
    requires ValidTables(t)
    ensures ValidTables(FixSpec(t, now, commitOk))
  {
    if commitOk {
      var t' := FixSpec(t, now, commitOk);
      var ps, qs := t.projects, t'.projects;
      forall k | 0 <= k < |ps|
        ensures qs[k].id == ps[k].id
        ensures qs[k].id.Some? && qs[k].id.value < t'.nextProjectId && qs[k].createdAt.Some? && qs[k].updatedAt.Some? && ProjectFits(qs[k])
      {
        assert ps[k] in ps;
        FixProjectFits(ps[k], now);
      }
      forall q: nat | HasProject(ps, q)
        ensures HasProject(qs, q)
      {
        var x :| x in ps && x.id == Some(q);
        var k :| 0 <= k < |ps| && ps[k] == x;
        assert qs[k] in qs;
      }
      forall x | x in qs
        ensures x.id.Some? && x.id.value < t'.nextProjectId && x.createdAt.Some? && x.updatedAt.Some? && ProjectFits(x)
      {
        var k :| 0 <= k < |qs| && qs[k] == x;
      }
    }
  }

  /** A fixed project keeps its id and its creation time, and its strings still fit their columns. */
  lemma FixProjectFits(p: Project, now: Time)
    requires ProjectFits(p) && p.updatedAt.Some?
    ensures var q := FixProject(p, now);
      q.id == p.id && q.createdAt == p.createdAt && q.updatedAt.Some? && ProjectFits(q)
  {
  }
}
