/**
  The two tables the backend writes through its database client, `projects`
  and `documentation_files`, and the requests it sends them. The controller
  never reads back the outcome of a status update or of a documentation
  insert, so a request the database rejects simply leaves the tables as they
  were; the journal keeps every request in the order it was sent.
 */
module Database {
  import opened Options

  /** The `status` column of a project row. */
  datatype Status = Pending | Analyzing | Generating | Completed | Failed
  {
    predicate Terminal()
    {
      this == Completed || this == Failed
    }
  }

  /** A row of `projects`; the row's id is its position in the table. */
  datatype Project = Project(
    userId: string,
    name: string,
    repoSource: string,
    repoType: string,
    localPath: string,
    status: Status,
    completedAt: Option<int>)

  /** The `file_type` column of a documentation row. */
  datatype FileType = Analysis | Readme

  /** A row of `documentation_files`. */
  datatype DocRow = DocRow(
    projectId: nat,
    fileName: string,
    filePath: string,
    fileType: FileType,
    content: string)

  /** One request sent to the database. */
  datatype Request =
    | InsertProject(row: Project)
      /** An update of `status`, and of `completed_at` when `completedAt` is present. */
    | UpdateStatus(id: nat, status: Status, completedAt: Option<int>)
    | InsertDoc(doc: DocRow)

  datatype Tables = Tables(projects: seq<Project>, docs: seq<DocRow>)

  /** The effect of one accepted request; an update of an id with no row changes nothing. */
  function Apply(t: Tables, r: Request): (t': Tables)
    ensures |t'.projects| == |t.projects| + (if r.InsertProject? then 1 else 0)
    ensures t'.docs == t.docs + (if r.InsertDoc? then [r.doc] else [])
    ensures forall k :: 0 <= k < |t.projects| && !(r.UpdateStatus? && r.id == k) ==> t'.projects[k] == t.projects[k]
    ensures r.InsertProject? ==> t'.projects[|t.projects|] == r.row
    ensures r.UpdateStatus? && r.id < |t.projects| ==>
      var p := t.projects[r.id];
      t'.projects[r.id] == p.(status := r.status, completedAt := if r.completedAt.Some? then r.completedAt else p.completedAt)
  {
    match r
    case InsertProject(row) => t.(projects := t.projects + [row])
    case UpdateStatus(id, s, c) =>
      if id < |t.projects| then
        var p := t.projects[id];
        t.(projects := t.projects[id := p.(status := s, completedAt := if c.Some? then c else p.completedAt)])
      else t
    case InsertDoc(d) => t.(docs := t.docs + [d])
  }

  /**
    The tables after the requests `reqs` of one run, where `rejected` holds the
    positions (in `reqs`) of the requests the database reported an error for.
   */
  function Replay(t: Tables, reqs: seq<Request>, rejected: set<nat>): Tables
    decreases |reqs|
  {
    if reqs == [] then t
    else
      var before := Replay(t, reqs[..|reqs| - 1], rejected);
      if |reqs| - 1 in rejected then before else Apply(before, reqs[|reqs| - 1])
  }

  /** The statuses written by `reqs`, in order. */
  function Statuses(reqs: seq<Request>): seq<Status>
  {
    if reqs == [] then []
    else (if reqs[0].UpdateStatus? then [reqs[0].status] else []) + Statuses(reqs[1..])
  }

  /** The documentation rows of the accepted inserts among `reqs`, in order. */
  function AcceptedDocs(reqs: seq<Request>, rejected: set<nat>): seq<DocRow>
    decreases |reqs|
  {
    if reqs == [] then []
    else
      var before := AcceptedDocs(reqs[..|reqs| - 1], rejected);
      var last := reqs[|reqs| - 1];
      if last.InsertDoc? && |reqs| - 1 !in rejected then before + [last.doc] else before
  }

  /** Every request of `reqs` is a status update of project `id` or a documentation insert. */
  predicate RunOf(reqs: seq<Request>, id: nat)
  {
    forall k :: 0 <= k < |reqs| ==> reqs[k].InsertDoc? || (reqs[k].UpdateStatus? && reqs[k].id == id)
  }

  /** Only `completed` writes carry a `completed_at` time. */
  predicate StampsOnlyCompleted(reqs: seq<Request>)
  {
    forall k :: 0 <= k < |reqs| && reqs[k].UpdateStatus? && reqs[k].completedAt.Some? ==> reqs[k].status == Completed
  }

  /** No status write of `reqs` carries a `completed_at` time. */
  predicate NoTimestamps(reqs: seq<Request>)
  {
    forall k :: 0 <= k < |reqs| && reqs[k].UpdateStatus? ==> reqs[k].completedAt.None?
  }

  lemma StampsOnlyCompletedAppend(a: seq<Request>, b: seq<Request>)
    requires StampsOnlyCompleted(a) && StampsOnlyCompleted(b)
    ensures StampsOnlyCompleted(a + b)
  {
    forall k | 0 <= k < |a + b| && (a + b)[k].UpdateStatus? && (a + b)[k].completedAt.Some?
      ensures (a + b)[k].status == Completed
    {
      if k < |a| {
        assert (a + b)[k] == a[k];
      } else {
        assert (a + b)[k] == b[k - |a|];
      }
    }
  }

  /**
    Requests of a run of project `id` whose status writes carry no time
    leave the row's `completed_at` as it was, whichever of them the database
    accepts.
   */
  lemma {:induction false} ReplayKeepsCompletedAt(t: Tables, reqs: seq<Request>, id: nat, rejected: set<nat>)
    requires RunOf(reqs, id) && NoTimestamps(reqs) && id < |t.projects|
    ensures |Replay(t, reqs, rejected).projects| == |t.projects|
    ensures Replay(t, reqs, rejected).projects[id].completedAt == t.projects[id].completedAt
    decreases |reqs|
  {
    ReplayOfRun(t, reqs, id, rejected);
    if reqs != [] {
      var init := reqs[..|reqs| - 1];
      assert RunOf(init, id) && NoTimestamps(init) by {
        forall k | 0 <= k < |init| ensures init[k] == reqs[k] {
        }
      }
      ReplayKeepsCompletedAt(t, init, id, rejected);
      ReplayOfRun(t, init, id, rejected);
    }
  }

  /**
    When no status write before the last carries a time, and the last one
    carries none or is rejected, `completed_at` of row `id` is unchanged.
   */
  lemma LastWriteAloneStamps(t: Tables, reqs: seq<Request>, id: nat, rejected: set<nat>)
    requires RunOf(reqs, id) && id < |t.projects| && reqs != []
    requires NoTimestamps(reqs[..|reqs| - 1])
    requires |reqs| - 1 in rejected || !reqs[|reqs| - 1].UpdateStatus? || reqs[|reqs| - 1].completedAt.None?
    ensures |Replay(t, reqs, rejected).projects| == |t.projects|
    ensures Replay(t, reqs, rejected).projects[id].completedAt == t.projects[id].completedAt
  {
    var init := reqs[..|reqs| - 1];
    assert RunOf(init, id) by {
      forall k | 0 <= k < |init| ensures init[k] == reqs[k] {
      }
    }
    ReplayKeepsCompletedAt(t, init, id, rejected);
    ReplayOfRun(t, reqs, id, rejected);
  }

  lemma RunOfAppend(a: seq<Request>, b: seq<Request>, id: nat)
    requires RunOf(a, id) && RunOf(b, id)
    ensures RunOf(a + b, id)
  {
    forall k | 0 <= k < |a + b| ensures (a + b)[k].InsertDoc? || ((a + b)[k].UpdateStatus? && (a + b)[k].id == id) {
      if k < |a| {
        assert (a + b)[k] == a[k];
      } else {
        assert (a + b)[k] == b[k - |a|];
      }
    }
  }

  /** Replaying one more request extends the replay of the ones before it. */
  lemma ReplaySnoc(t: Tables, reqs: seq<Request>, r: Request, rejected: set<nat>)
    ensures Replay(t, reqs + [r], rejected)
         == if |reqs| in rejected then Replay(t, reqs, rejected) else Apply(Replay(t, reqs, rejected), r)
  {
    assert (reqs + [r])[..|reqs|] == reqs;
  }

  lemma StatusesOfOne(r: Request)
    ensures Statuses([r]) == if r.UpdateStatus? then [r.status] else []
  {
    assert [r][1..] == [];
  }

  lemma {:induction false} StatusesAppend(a: seq<Request>, b: seq<Request>)
    ensures Statuses(a + b) == Statuses(a) + Statuses(b)
  {
    if a == [] {
      assert a + b == b;
    } else {
      assert (a + b)[0] == a[0] && (a + b)[1..] == a[1..] + b;
      StatusesAppend(a[1..], b);
    }
  }

  lemma AcceptedDocsOfOne(r: Request)
    ensures AcceptedDocs([r], {}) == if r.InsertDoc? then [r.doc] else []
  {
    assert [r][..0] == [];
  }

  /** With nothing rejected, the accepted documentation rows of `a + b` are those of `a`, then those of `b`. */
  lemma {:induction false} AcceptedDocsAppend(a: seq<Request>, b: seq<Request>)
    ensures AcceptedDocs(a + b, {}) == AcceptedDocs(a, {}) + AcceptedDocs(b, {})
    decreases |b|
  {
    if b == [] {
      assert a + b == a;
    } else {
      var init := b[..|b| - 1];
      assert (a + b)[..|a + b| - 1] == a + init;
      assert (a + b)[|a + b| - 1] == b[|b| - 1];
      AcceptedDocsAppend(a, init);
    }
  }

  /**
    What a run's requests do to the tables: the project table keeps its size,
    every row other than `id` is untouched, row `id` changes only in `status`
    and `completed_at`, and the documentation table gains exactly the accepted
    inserts, in order.
   */
  lemma {:induction false} ReplayOfRun(t: Tables, reqs: seq<Request>, id: nat, rejected: set<nat>)
    requires RunOf(reqs, id)
    ensures var after := Replay(t, reqs, rejected);
      && |after.projects| == |t.projects|
      && (forall k :: 0 <= k < |t.projects| && k != id ==> after.projects[k] == t.projects[k])
      && (id < |t.projects| ==>
            after.projects[id] == t.projects[id].(status := after.projects[id].status,
                                                  completedAt := after.projects[id].completedAt))
      && after.docs == t.docs + AcceptedDocs(reqs, rejected)
  {
    if reqs != [] {
      var init := reqs[..|reqs| - 1];
      assert RunOf(init, id) by {
        forall k | 0 <= k < |init| ensures init[k].InsertDoc? || (init[k].UpdateStatus? && init[k].id == id) {
          assert init[k] == reqs[k];
        }
      }
      ReplayOfRun(t, init, id, rejected);
      assert reqs[|reqs| - 1].InsertDoc? || reqs[|reqs| - 1].UpdateStatus?;
    }
  }

  /**
    A status write that ends a run and is accepted decides the row's status
    after the run (and its `completed_at`, when the write carries one).
   */
  lemma FinalWriteDecidesStatus(t: Tables, reqs: seq<Request>, id: nat, s: Status, c: Option<int>, rejected: set<nat>)
    requires RunOf(reqs, id) && id < |t.projects|
    requires reqs != [] && reqs[|reqs| - 1] == UpdateStatus(id, s, c) && |reqs| - 1 !in rejected
    ensures |Replay(t, reqs, rejected).projects| == |t.projects|
    ensures Replay(t, reqs, rejected).projects[id].status == s
    ensures c.Some? ==> Replay(t, reqs, rejected).projects[id].completedAt == c
  {
    var init := reqs[..|reqs| - 1];
    assert RunOf(init, id) by {
      forall k | 0 <= k < |init| ensures init[k].InsertDoc? || (init[k].UpdateStatus? && init[k].id == id) {
        assert init[k] == reqs[k];
      }
    }
    ReplayOfRun(t, init, id, rejected);
  }

  /**
    The database behind the backend: the two tables, and the journal of every
    request sent to them, accepted or not.
   */
  class Store {
    var projects: seq<Project>
    var docs: seq<DocRow>
    var journal: seq<Request>

    constructor ()
      ensures projects == [] && docs == [] && journal == []
    {
      projects, docs, journal := [], [], [];
    }

    function Snapshot(): Tables
      reads this
    {
      Tables(projects, docs)
    }

    /** Sends `r`; the tables change only when the database accepts it. */
    method Send(r: Request, accepted: bool)
      modifies this
      ensures journal == old(journal) + [r]
      ensures Snapshot() == if accepted then Apply(old(Snapshot()), r) else old(Snapshot())
    {
      journal := journal + [r];
      if accepted {
        var t := Apply(Tables(projects, docs), r);
        projects, docs := t.projects, t.docs;
      }
    }

    /** `insert([row]).select().single()`: the id of the new row, or `None` when the insert fails. */
    method InsertProject(row: Project, accepted: bool) returns (id: Option<nat>)
      modifies this
      ensures journal == old(journal) + [Request.InsertProject(row)]
      ensures accepted ==> id == Some(|old(projects)|) && projects == old(projects) + [row]
      ensures !accepted ==> id == None && projects == old(projects)
      ensures docs == old(docs)
    {
      id := if accepted then Some(|projects|) else None;
      Send(Request.InsertProject(row), accepted);
    }
  }
}
