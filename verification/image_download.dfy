/** The image downloaders of utils_aws.py.

    `ImageDownloaderParallelS3` builds one job per manifest row
    (`create_jobs`) and runs `download_images` on each job in a worker pool,
    returning one boolean per job; its caller removes the rows of failed
    jobs. `ImageDownloaderS3.download_imgs_in_disk` does the same work in a
    single loop and removes rows itself. Both open the destination file for
    writing before the transfer starts, so a failed transfer still leaves a
    file behind. */
module ImageDownload {
  import opened Lists
  import opened Storage
  import opened Manifest

  /** What one run of `download_images` did: whether it returned true, and
      whether it attempted the transfer at all. */
  datatype JobOutcome = JobOutcome(job: Transfer, ok: bool, fetched: bool)

  /** The outcome of one job and the disk it leaves. */
  datatype Step = Step(outcome: JobOutcome, disk: set<string>)

  /** The outcomes of a list of jobs, aligned with the jobs, and the final
      disk. */
  datatype Batch = Batch(outcomes: seq<JobOutcome>, disk: set<string>)

  /** Result of a download pass: the reconciled table with its `img_path`
      column, the disk afterwards, and one outcome per input row. */
  datatype Pass = Pass(samples: seq<Sample>, disk: set<string>, outcomes: seq<JobOutcome>)

  /** `create_jobs`: one job per row, in row order, reading the row's
      `image_names_s3` key into the local file named after its last
      segment. */
  function CreateJobs(basePath: string, rows: seq<Row>): (jobs: seq<Transfer>)
    ensures |jobs| == |rows|
    ensures forall i {:trigger jobs[i]} :: 0 <= i < |rows| ==>
      jobs[i].key == rows[i].imageNamesS3 &&
      jobs[i].dest == LocalPath(basePath, rows[i].imageNamesS3)
  {
    seq(|rows|, i requires 0 <= i < |rows| =>
      Transfer(rows[i].imageNamesS3, LocalPath(basePath, rows[i].imageNamesS3)))
  }

  /** One more row adds its job at the end. */
  lemma CreateJobsSnoc(basePath: string, rows: seq<Row>, r: Row)
    ensures CreateJobs(basePath, rows + [r]) ==
      CreateJobs(basePath, rows) + [Transfer(r.imageNamesS3, LocalPath(basePath, r.imageNamesS3))]
  {
    var a := CreateJobs(basePath, rows + [r]);
    var b := CreateJobs(basePath, rows) + [Transfer(r.imageNamesS3, LocalPath(basePath, r.imageNamesS3))];
    forall i | 0 <= i < |a|
      ensures a[i] == b[i]
    {
      assert (rows + [r])[i] == if i < |rows| then rows[i] else r;
    }
  }

  /** `download_images`: an existing destination is reported as success
      without a transfer; otherwise the file is created, the transfer is
      attempted, and the result is false exactly when it raised. */
  function DownloadImages(job: Transfer, disk: set<string>, downloadOk: string -> bool): (s: Step)
    ensures s.outcome.job == job
    ensures s.outcome.fetched <==> job.dest !in disk
    ensures !s.outcome.ok <==> s.outcome.fetched && !downloadOk(job.key)
    ensures s.disk == disk + {job.dest}
  {
    if job.dest in disk then Step(JobOutcome(job, true, false), disk)
    else Step(JobOutcome(job, downloadOk(job.key), true), disk + {job.dest})
  }

  /** A job that failed left its destination behind, so running it again
      succeeds without a transfer and changes nothing. */
  lemma DownloadImagesRerun(job: Transfer, disk: set<string>, downloadOk: string -> bool)
    ensures var first := DownloadImages(job, disk, downloadOk);
      job.dest in first.disk &&
      DownloadImages(job, first.disk, downloadOk) == Step(JobOutcome(job, true, false), first.disk)
  {
  }

  /** `pool.map(download_images, jobs)` with the jobs run one after
      another, each seeing the files the earlier ones created: one outcome
      per job, aligned with the jobs, and every destination is on disk
      afterwards. */
  function RunJobs(jobs: seq<Transfer>, disk: set<string>, downloadOk: string -> bool): (b: Batch)
    ensures |b.outcomes| == |jobs|
    ensures forall i :: 0 <= i < |jobs| ==> b.outcomes[i].job == jobs[i]
    ensures b.disk == disk + Dests(jobs)
  {
    if |jobs| == 0 then Batch([], disk)
    else
      var n := |jobs| - 1;
      var before := RunJobs(jobs[..n], disk, downloadOk);
      var s := DownloadImages(jobs[n], before.disk, downloadOk);
      SplitLast(jobs);
      TakeAt(jobs, n);
      DestsSnoc(jobs[..n], jobs[n]);
      Batch(before.outcomes + [s.outcome], s.disk)
  }

  /** Running one more job continues from the disk the earlier jobs
      left. */
  lemma RunJobsSnoc(jobs: seq<Transfer>, j: Transfer, disk: set<string>, downloadOk: string -> bool)
    ensures var before := RunJobs(jobs, disk, downloadOk);
      var s := DownloadImages(j, before.disk, downloadOk);
      RunJobs(jobs + [j], disk, downloadOk) == Batch(before.outcomes + [s.outcome], s.disk)
  {
    var js := jobs + [j];
    assert js[..|jobs|] == jobs;
    assert js[|jobs|] == j;
  }

  /** The last job of a run transfers exactly when its file was neither on
      disk nor created by an earlier job. */
  lemma RunJobsLast(jobs: seq<Transfer>, disk: set<string>, downloadOk: string -> bool)
    requires |jobs| > 0
    ensures var n := |jobs| - 1; var o := RunJobs(jobs, disk, downloadOk).outcomes[n];
      (o.fetched <==> jobs[n].dest !in disk && forall k :: 0 <= k < n ==> jobs[k].dest != jobs[n].dest) &&
      (!o.ok <==> o.fetched && !downloadOk(jobs[n].key))
  {
    var n := |jobs| - 1;
    TakeAt(jobs, n);
  }

  /** The outcome of job `i` of a run: it transfers exactly when its file
      was neither on disk nor created by an earlier job, and it returns
      false exactly when that transfer raised. */
  lemma {:induction false} RunJobsOutcome(jobs: seq<Transfer>, disk: set<string>, downloadOk: string -> bool, i: nat)
    requires i < |jobs|
    ensures var o := RunJobs(jobs, disk, downloadOk).outcomes[i];
      (o.fetched <==> jobs[i].dest !in disk && forall k :: 0 <= k < i ==> jobs[k].dest != jobs[i].dest) &&
      (!o.ok <==> o.fetched && !downloadOk(jobs[i].key))
    decreases |jobs|
  {
    var n := |jobs| - 1;
    if i == n {
      RunJobsLast(jobs, disk, downloadOk);
    } else {
      var prefix := jobs[..n];
      RunJobsOutcome(prefix, disk, downloadOk, i);
      assert RunJobs(jobs, disk, downloadOk).outcomes[i] == RunJobs(prefix, disk, downloadOk).outcomes[i];
      TakeAt(jobs, n);
    }
  }

  /** In a run of jobs, a job transfers exactly when its file was neither on
      disk nor created by an earlier job, and it returns false exactly when
      that transfer raised. */
  lemma RunJobsOutcomes(jobs: seq<Transfer>, disk: set<string>, downloadOk: string -> bool)
    ensures var b := RunJobs(jobs, disk, downloadOk);
      forall i :: 0 <= i < |jobs| ==>
        (b.outcomes[i].fetched <==>
          jobs[i].dest !in disk && forall k :: 0 <= k < i ==> jobs[k].dest != jobs[i].dest) &&
        (!b.outcomes[i].ok <==> b.outcomes[i].fetched && !downloadOk(jobs[i].key))
  {
    forall i | 0 <= i < |jobs| {
      RunJobsOutcome(jobs, disk, downloadOk, i);
    }
  }

  /** The keys of the jobs that returned false. */
  function FailedKeys(outcomes: seq<JobOutcome>): set<string> {
    set i | 0 <= i < |outcomes| && !outcomes[i].ok :: outcomes[i].job.key
  }

  /** The files created by jobs whose transfer raised: each was opened for
      writing, so it exists, but it holds no complete image. */
  function LeftBehind(outcomes: seq<JobOutcome>): set<string> {
    set i | 0 <= i < |outcomes| && !outcomes[i].ok :: outcomes[i].job.dest
  }

  /** One more outcome adds its key when it failed. */
  lemma FailedKeysSnoc(outcomes: seq<JobOutcome>, o: JobOutcome)
    ensures FailedKeys(outcomes + [o]) == FailedKeys(outcomes) + (if o.ok then {} else {o.job.key})
  {
    var os := outcomes + [o];
    forall u | u in FailedKeys(os)
      ensures u in FailedKeys(outcomes) + (if o.ok then {} else {o.job.key})
    {
      var i :| 0 <= i < |os| && !os[i].ok && os[i].job.key == u;
      if i < |outcomes| { assert outcomes[i] == os[i]; }
    }
    forall u | u in FailedKeys(outcomes)
      ensures u in FailedKeys(os)
    {
      var i :| 0 <= i < |outcomes| && !outcomes[i].ok && outcomes[i].job.key == u;
      assert os[i] == outcomes[i];
    }
    assert os[|outcomes|] == o;
  }

  /** The parallel path with its caller's reconciliation: run the jobs of
      `create_jobs`, drop every row whose `matchOn` cell equals the key of a
      failed job, and add the `img_path` column. One outcome per row, for
      the row's own image; every image file named by a row is on disk
      afterwards, whether its transfer succeeded or not; the rows kept are
      exactly those whose `matchOn` cell is not a failed key, in their
      original order, each with the local path of its own image. */
  function Reconcile(basePath: string, samples: seq<Row>, disk: set<string>,
                     downloadOk: string -> bool, matchOn: Column): (p: Pass)
    ensures |p.outcomes| == |samples|
    ensures forall i :: 0 <= i < |samples| ==>
      p.outcomes[i].job == Transfer(samples[i].imageNamesS3, LocalPath(basePath, samples[i].imageNamesS3))
    ensures forall r :: r in Rows(p.samples) <==> r in samples && Cell(r, matchOn) !in FailedKeys(p.outcomes)
    ensures IsSubseq(Rows(p.samples), samples)
    ensures forall k :: 0 <= k < |p.samples| ==>
      p.samples[k].imgPath == LocalPath(basePath, p.samples[k].row.imageNamesS3)
  {
    var jobs := CreateJobs(basePath, samples);
    var b := RunJobs(jobs, disk, downloadOk);
    var kept := DropWhere(samples, matchOn, FailedKeys(b.outcomes));
    var withPaths := WithPaths(basePath, kept);
    var p := Pass(withPaths, b.disk, b.outcomes);
    assert forall i :: 0 <= i < |samples| ==>
      p.outcomes[i].job == Transfer(samples[i].imageNamesS3, LocalPath(basePath, samples[i].imageNamesS3)) by {
      assert forall i :: 0 <= i < |samples| ==> b.outcomes[i].job == jobs[i];
    }
    assert Rows(p.samples) == kept;
    assert IsSubseq(Rows(p.samples), samples);
    p
  }

  /** A download pass keeps every occurrence of a row whose `matchOn` cell
      is not a failed reference, and no occurrence of any other row. */
  lemma ReconcileCount(basePath: string, samples: seq<Row>, disk: set<string>,
                       downloadOk: string -> bool, matchOn: Column)
    ensures var p := Reconcile(basePath, samples, disk, downloadOk, matchOn);
      forall r :: multiset(Rows(p.samples))[r] ==
        (if Cell(r, matchOn) in FailedKeys(p.outcomes) then 0 else multiset(samples)[r])
  {
    var b := RunJobs(CreateJobs(basePath, samples), disk, downloadOk);
    DropWhereCount(samples, matchOn, FailedKeys(b.outcomes));
  }

  /** After a download pass the disk holds what it held before plus the
      local file of every row, whether its transfer succeeded or not. */
  lemma ReconcileDisk(basePath: string, samples: seq<Row>, disk: set<string>,
                      downloadOk: string -> bool, matchOn: Column)
    ensures var p := Reconcile(basePath, samples, disk, downloadOk, matchOn);
      forall f :: f in p.disk <==>
        f in disk || exists i :: 0 <= i < |samples| && LocalPath(basePath, samples[i].imageNamesS3) == f
  {
    var jobs := CreateJobs(basePath, samples);
    var p := Reconcile(basePath, samples, disk, downloadOk, matchOn);
    assert p.disk == disk + Dests(jobs);
    forall f
      ensures f in p.disk <==>
        f in disk || exists i :: 0 <= i < |samples| && LocalPath(basePath, samples[i].imageNamesS3) == f
    {
      if f in Dests(jobs) {
        var i :| 0 <= i < |jobs| && jobs[i].dest == f;
        assert LocalPath(basePath, samples[i].imageNamesS3) == f;
      }
      if exists i :: 0 <= i < |samples| && LocalPath(basePath, samples[i].imageNamesS3) == f {
        var i :| 0 <= i < |samples| && LocalPath(basePath, samples[i].imageNamesS3) == f;
        assert jobs[i].dest == f;
      }
    }
  }

  /** In a download pass, a row's image is transferred exactly when its
      file was not on disk and no earlier row named the same file; files
      already on disk are never fetched. A row's outcome is false exactly
      when that transfer raised. */
  lemma ReconcileOutcomes(basePath: string, samples: seq<Row>, disk: set<string>,
                          downloadOk: string -> bool, matchOn: Column)
    ensures var p := Reconcile(basePath, samples, disk, downloadOk, matchOn);
      forall i :: 0 <= i < |samples| ==>
        (p.outcomes[i].fetched <==>
          LocalPath(basePath, samples[i].imageNamesS3) !in disk &&
          forall k :: 0 <= k < i ==>
            LocalPath(basePath, samples[k].imageNamesS3) != LocalPath(basePath, samples[i].imageNamesS3)) &&
        (!p.outcomes[i].ok <==> p.outcomes[i].fetched && !downloadOk(samples[i].imageNamesS3))
  {
    RunJobsOutcomes(CreateJobs(basePath, samples), disk, downloadOk);
  }

  /** One iteration of the sequential loop extends the run of jobs by the
      job of the next row. */
  lemma RunJobsNextRow(basePath: string, samples: seq<Row>, disk: set<string>,
                       downloadOk: string -> bool, i: nat)
    requires i < |samples|
    ensures var url := samples[i].imageNamesS3;
      var before := RunJobs(CreateJobs(basePath, samples[..i]), disk, downloadOk);
      var s := DownloadImages(Transfer(url, LocalPath(basePath, url)), before.disk, downloadOk);
      RunJobs(CreateJobs(basePath, samples[..i + 1]), disk, downloadOk) ==
        Batch(before.outcomes + [s.outcome], s.disk)
  {
    var url := samples[i].imageNamesS3;
    var job := Transfer(url, LocalPath(basePath, url));
    TakeSnoc(samples, i);
    CreateJobsSnoc(basePath, samples[..i], samples[i]);
    RunJobsSnoc(CreateJobs(basePath, samples[..i]), job, disk, downloadOk);
  }

  /** Dropping the rows of a failed outcome after those of earlier failed
      outcomes drops the rows of all of them. */
  lemma DropFailedNext(rows: seq<Row>, c: Column, outcomes: seq<JobOutcome>, o: JobOutcome)
    ensures DropWhere(rows, c, FailedKeys(outcomes + [o])) ==
      if o.ok then DropWhere(rows, c, FailedKeys(outcomes))
      else DropWhere(DropWhere(rows, c, FailedKeys(outcomes)), c, {o.job.key})
  {
    FailedKeysSnoc(outcomes, o);
    if o.ok {
      assert FailedKeys(outcomes + [o]) == FailedKeys(outcomes);
    } else {
      assert FailedKeys(outcomes + [o]) == FailedKeys(outcomes) + {o.job.key};
      DropWhereTwice(rows, c, FailedKeys(outcomes), {o.job.key});
    }
  }

  /** `download_imgs_in_disk`, as written: for each reference of the input
      table, skip an existing file, otherwise create it and attempt the
      transfer, and on failure drop the rows whose `image_service_id`
      equals the reference; finally add `img_path`. The loop computes the
      parallel path reconciled on the `image_service_id` column. */
  method DownloadImgsInDisk(basePath: string, samples: seq<Row>, disk: set<string>,
                            downloadOk: string -> bool) returns (p: Pass)
    ensures p == Reconcile(basePath, samples, disk, downloadOk, ImageServiceId)
  {
    var kept := samples;
    var onDisk := disk;
    var outcomes: seq<JobOutcome> := [];
    var i := 0;
    assert FailedKeys(outcomes) == {};
    DropWhereNothing(samples, ImageServiceId, {});
    while i < |samples|
      invariant 0 <= i <= |samples|
      invariant RunJobs(CreateJobs(basePath, samples[..i]), disk, downloadOk) == Batch(outcomes, onDisk)
      invariant kept == DropWhere(samples, ImageServiceId, FailedKeys(outcomes))
    {
      var imgUrl := samples[i].imageNamesS3;
      var s := DownloadImages(Transfer(imgUrl, LocalPath(basePath, imgUrl)), onDisk, downloadOk);
      if !s.outcome.ok {
        kept := DropWhere(kept, ImageServiceId, {imgUrl});
      }
      RunJobsNextRow(basePath, samples, disk, downloadOk, i);
      DropFailedNext(samples, ImageServiceId, outcomes, s.outcome);
      outcomes := outcomes + [s.outcome];
      onDisk := s.disk;
      i := i + 1;
    }
    assert samples[..|samples|] == samples;
    p := Pass(WithPaths(basePath, kept), onDisk, outcomes);
  }
}
