/** What the model keeps of the object store and the local file system.

    A download is described by its `Transfer`: the S3 key read and the local
    path written. Whether the store delivers a key is an oracle
    `downloadOk: string -> bool` passed to every operation, so an outcome
    depends on the key alone. The local disk is the set of paths for which
    `os.path.isfile` holds. */
module Storage {

  /** One download: the S3 key to read and the local file to write. */
  datatype Transfer = Transfer(key: string, dest: string)

  /** The destination paths named by a list of transfers. */
  function Dests(jobs: seq<Transfer>): (ds: set<string>)
    ensures forall i :: 0 <= i < |jobs| ==> jobs[i].dest in ds
    ensures forall d :: d in ds ==> exists i :: 0 <= i < |jobs| && jobs[i].dest == d
  {
    set i | 0 <= i < |jobs| :: jobs[i].dest
  }

  /** Adding one transfer at the end adds its destination. */
  lemma DestsSnoc(jobs: seq<Transfer>, j: Transfer)
    ensures Dests(jobs + [j]) == Dests(jobs) + {j.dest}
  {
    var js := jobs + [j];
    forall d | d in Dests(js)
      ensures d in Dests(jobs) + {j.dest}
    {
      var i :| 0 <= i < |js| && js[i].dest == d;
      if i < |jobs| { assert jobs[i] == js[i]; }
    }
    forall d | d in Dests(jobs)
      ensures d in Dests(js)
    {
      var i :| 0 <= i < |jobs| && jobs[i].dest == d;
      assert js[i] == jobs[i];
    }
    assert js[|jobs|] == j;
  }
}
