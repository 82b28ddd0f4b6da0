/** Which rows survive a download pass, for the column the source matches
    failed references against (`image_service_id`) and for the column it
    evidently means (`image_names_s3`), and what a second pass over the
    same disk does. */
module Reconciliation {
  import opened Lists
  import opened Storage
  import opened Manifest
  import opened ImageDownload

  /** No row's `image_service_id` is equal to any row's image reference,
      as with numeric service ids and path-shaped references. */
  predicate IdsAreNotRefs(samples: seq<Row>) {
    forall i, j :: 0 <= i < |samples| && 0 <= j < |samples| ==>
      samples[i].imageServiceId != samples[j].imageNamesS3
  }

  /** Distinct image references have distinct local files. */
  predicate UniqueFileNames(basePath: string, samples: seq<Row>) {
    forall i, j :: 0 <= i < |samples| && 0 <= j < |samples| ==>
      (LocalPath(basePath, samples[i].imageNamesS3) == LocalPath(basePath, samples[j].imageNamesS3) ==>
       samples[i].imageNamesS3 == samples[j].imageNamesS3)
  }

  /** Every failed key is the image reference of some row. */
  lemma FailedKeysAreRefs(basePath: string, samples: seq<Row>, disk: set<string>,
                          downloadOk: string -> bool, c: Column)
    ensures var p := Reconcile(basePath, samples, disk, downloadOk, c);
      forall u :: u in FailedKeys(p.outcomes) ==>
        exists i :: 0 <= i < |samples| && samples[i].imageNamesS3 == u && !p.outcomes[i].ok
  {
  }

  /** `download_imgs_in_disk` as written: when service ids never look like
      image references, the filter never matches and every row is kept,
      including the rows whose transfer failed. */
  lemma WrongColumnKeepsEveryRow(basePath: string, samples: seq<Row>, disk: set<string>,
                                 downloadOk: string -> bool)
    requires IdsAreNotRefs(samples)
    ensures Rows(Reconcile(basePath, samples, disk, downloadOk, ImageServiceId).samples) == samples
  {
    var p := Reconcile(basePath, samples, disk, downloadOk, ImageServiceId);
    var keys := FailedKeys(p.outcomes);
    FailedKeysAreRefs(basePath, samples, disk, downloadOk, ImageServiceId);
    forall r | r in samples
      ensures Cell(r, ImageServiceId) !in keys
    {
      var j :| 0 <= j < |samples| && samples[j] == r;
    }
    DropWhereNothing(samples, ImageServiceId, keys);
  }

  /** The first row whose image goes to the same local file as row `j`. */
  lemma FirstWithFile(basePath: string, samples: seq<Row>, j: nat) returns (i: nat)
    requires j < |samples|
    ensures i <= j
    ensures LocalPath(basePath, samples[i].imageNamesS3) == LocalPath(basePath, samples[j].imageNamesS3)
    ensures forall k :: 0 <= k < i ==>
      LocalPath(basePath, samples[k].imageNamesS3) != LocalPath(basePath, samples[j].imageNamesS3)
  {
    var f := LocalPath(basePath, samples[j].imageNamesS3);
    i := 0;
    while LocalPath(basePath, samples[i].imageNamesS3) != f
      invariant i <= j
      invariant forall k :: 0 <= k < i ==> LocalPath(basePath, samples[k].imageNamesS3) != f
      decreases j - i
    {
      i := i + 1;
    }
  }

  /** Under the corrected filter, for image references with distinct file
      names: a row's reference is a failed key exactly when its file was
      not on disk and its transfer raised. */
  lemma FailedRefs(basePath: string, samples: seq<Row>, disk: set<string>,
                   downloadOk: string -> bool, j: nat)
    requires j < |samples|
    requires UniqueFileNames(basePath, samples)
    ensures var p := Reconcile(basePath, samples, disk, downloadOk, ImageNamesS3);
      var u := samples[j].imageNamesS3;
      u in FailedKeys(p.outcomes) <==> LocalPath(basePath, u) !in disk && !downloadOk(u)
  {
    var p := Reconcile(basePath, samples, disk, downloadOk, ImageNamesS3);
    var u := samples[j].imageNamesS3;
    ReconcileOutcomes(basePath, samples, disk, downloadOk, ImageNamesS3);
    if u in FailedKeys(p.outcomes) {
      var i :| 0 <= i < |p.outcomes| && !p.outcomes[i].ok && p.outcomes[i].job.key == u;
      assert samples[i].imageNamesS3 == u;
    }
    if LocalPath(basePath, u) !in disk && !downloadOk(u) {
      var i := FirstWithFile(basePath, samples, j);
      assert samples[i].imageNamesS3 == u;
      assert !p.outcomes[i].ok;
      assert p.outcomes[i].job.key == u;
    }
  }

  /** The corrected `download_imgs_in_disk`, which drops the rows whose
      `image_names_s3` equals the failed reference: when distinct
      references have distinct file names, a row survives exactly when
      its image file was already on disk or its transfer succeeded. */
  lemma ReconcileByRefKeepsLanded(basePath: string, samples: seq<Row>, disk: set<string>,
                                  downloadOk: string -> bool)
    requires UniqueFileNames(basePath, samples)
    ensures var p := Reconcile(basePath, samples, disk, downloadOk, ImageNamesS3);
      forall r :: r in Rows(p.samples) <==>
        r in samples && (LocalPath(basePath, r.imageNamesS3) in disk || downloadOk(r.imageNamesS3))
  {
    var p := Reconcile(basePath, samples, disk, downloadOk, ImageNamesS3);
    forall r | r in samples
      ensures r.imageNamesS3 in FailedKeys(p.outcomes) <==>
        LocalPath(basePath, r.imageNamesS3) !in disk && !downloadOk(r.imageNamesS3)
    {
      var j :| 0 <= j < |samples| && samples[j] == r;
      FailedRefs(basePath, samples, disk, downloadOk, j);
    }
  }

  /** A failed transfer leaves its file behind, so a second pass over the
      same rows on the disk the first pass left fetches nothing, reports
      every job as a success and keeps every row, whichever column either
      pass matches on. */
  lemma RerunKeepsEveryRow(basePath: string, samples: seq<Row>, disk: set<string>,
                           downloadOk: string -> bool, first: Column, second: Column)
    ensures var p := Reconcile(basePath, samples, disk, downloadOk, first);
      var q := Reconcile(basePath, samples, p.disk, downloadOk, second);
      q.disk == p.disk && Rows(q.samples) == samples &&
      forall i :: 0 <= i < |samples| ==> !q.outcomes[i].fetched && q.outcomes[i].ok
  {
    var p := Reconcile(basePath, samples, disk, downloadOk, first);
    var q := Reconcile(basePath, samples, p.disk, downloadOk, second);
    ReconcileDisk(basePath, samples, disk, downloadOk, first);
    ReconcileDisk(basePath, samples, p.disk, downloadOk, second);
    ReconcileOutcomes(basePath, samples, p.disk, downloadOk, second);
    forall i | 0 <= i < |samples|
      ensures !q.outcomes[i].fetched && q.outcomes[i].ok
    {
      assert LocalPath(basePath, samples[i].imageNamesS3) in p.disk;
    }
    assert FailedKeys(q.outcomes) == {};
    DropWhereNothing(samples, second, {});
  }
}
