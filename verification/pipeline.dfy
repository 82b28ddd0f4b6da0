/** The download pass followed by the dataset view, for manifests whose
    image is missing from the bucket: a worked one-row example and the
    general case of one row. */
module Pipeline {
  import opened Wrappers
  import opened Paths
  import opened Manifest
  import opened ImageDownload
  import opened Reconciliation
  import opened DatasetView

  /** A bucket that holds nothing. */
  function EmptyBucket(key: string): bool {
    false
  }

  /** The manifest: one image of city CUG, with service id 2. */
  function Manifest1(): seq<Row> {
    [Row("v2/CUG/images/1_2.png", "2", 1)]
  }

  /** As written, the transfer of the only image fails, yet its row is
      kept. */
  lemma MissingImageKept()
    ensures var asWritten := Reconcile("imgs", Manifest1(), {}, EmptyBucket, ImageServiceId);
      !asWritten.outcomes[0].ok && Rows(asWritten.samples) == Manifest1()
  {
    ReconcileOutcomes("imgs", Manifest1(), {}, EmptyBucket, ImageServiceId);
    assert IdsAreNotRefs(Manifest1());
    WrongColumnKeepsEveryRow("imgs", Manifest1(), {}, EmptyBucket);
  }

  /** With the corrected column, the row of the failed image is dropped. */
  lemma MissingImageDropped()
    ensures Rows(Reconcile("imgs", Manifest1(), {}, EmptyBucket, ImageNamesS3).samples) == []
  {
    var corrected := Reconcile("imgs", Manifest1(), {}, EmptyBucket, ImageNamesS3);
    ReconcileOutcomes("imgs", Manifest1(), {}, EmptyBucket, ImageNamesS3);
    assert Manifest1()[0].imageNamesS3 in FailedKeys(corrected.outcomes);
  }

  /** With the corrected column the row set is not stable across runs:
      the first pass drops the row of the missing image, and a second pass
      finds the file the failed transfer left and keeps the row. */
  lemma MissingImageReturns()
    ensures var first := Reconcile("imgs", Manifest1(), {}, EmptyBucket, ImageNamesS3);
      var second := Reconcile("imgs", Manifest1(), first.disk, EmptyBucket, ImageNamesS3);
      Rows(first.samples) == [] && Rows(second.samples) == Manifest1()
  {
    MissingImageDropped();
    RerunKeepsEveryRow("imgs", Manifest1(), {}, EmptyBucket, ImageNamesS3, ImageNamesS3);
  }

  /** The row of a missing image reaches the dataset view as written, and
      its item names the file the failed transfer left behind. Whatever
      decoder is used, if such a file does not decode, reading the item
      raises OSError before its city code is looked at. */
  lemma MissingImageRead(basePath: string, r: Row, downloadOk: string -> bool, decodes: string -> bool)
    requires !downloadOk(r.imageNamesS3)
    requires r.imageServiceId != r.imageNamesS3
    requires forall f :: f in LeftBehind(Reconcile(basePath, [r], {}, downloadOk, ImageServiceId).outcomes) ==> !decodes(f)
    ensures var asWritten := Reconcile(basePath, [r], {}, downloadOk, ImageServiceId);
      !asWritten.outcomes[0].ok && Rows(asWritten.samples) == [r] &&
      asWritten.samples[0].imgPath in LeftBehind(asWritten.outcomes) &&
      GetItem(NewView(asWritten.samples, None), 0, decodes) == Failure(OSError)
  {
    var asWritten := Reconcile(basePath, [r], {}, downloadOk, ImageServiceId);
    ReconcileOutcomes(basePath, [r], {}, downloadOk, ImageServiceId);
    assert IdsAreNotRefs([r]);
    WrongColumnKeepsEveryRow(basePath, [r], {}, downloadOk);
    assert asWritten.samples[0].row == r;
    assert asWritten.samples[0].imgPath == asWritten.outcomes[0].job.dest;
  }
}
