# S3 manifest and image download utilities, modelled in Dafny

This project models the pure logic underneath the S3 helpers of the foodi_ml
repository. The helpers fetch per-city CSV manifests and product images from
an S3 bucket, reconcile the manifest with the images that actually arrived,
and expose the result as an indexable dataset. The storage calls are replaced
by two oracles:

- `downloadOk: string -> bool` tells whether the transfer of an S3 key
  succeeds;
- the local disk is a `set<string>` of full file paths.

Modules, in dependency order:

- `Wrappers`: the `Result`/`Option` types, and the Python errors the code
  can raise (`IndexError`, `ValueError`, `AssertionError`, and `OSError`
  for any failure to read an image file).
- `Lists`: Python list behaviour the code relies on. This covers indexing
  with negative indices, `[:-1]`, `pop()`, `remove(x)` (first occurrence,
  `ValueError` when absent), and order-preserving subsequences.
- `Paths`: `str.split("/")` with empty segments kept, `"/".join`, the last
  segment of a reference, and POSIX `os.path.join`.
- `Storage`: a transfer job `(key, destination)`.
- `AwsTools`: `create_list_cities` (the parsing step after the listing call)
  and `downloading_city_csv`.
- `Manifest`: manifest rows, the local image path of a reference, dropping
  rows by a column, and adding the `img_path` column.
- `ImageDownload`: `create_jobs` and `download_images` of the parallel
  downloader, a run of jobs in order, and the sequential
  `download_imgs_in_disk`.
- `Reconciliation`: which rows survive a download pass. It covers the column
  the code matches on, the column it evidently means, and a second pass.
- `DatasetView`: `ImageEmbeddingsDatasetPrediction`. Whether a file
  decodes is a third oracle, `decodes: string -> bool`. An item carries
  the image path it opened instead of the decoded tensor.
- `Pipeline`: a download pass followed by the dataset view, for a manifest
  whose image is missing.

Where the code departs from what its own comments promise, the model
follows the code:

- The docstring of `download_imgs_in_disk` (utils_aws.py:176-177) promises
  that only rows whose image was downloaded successfully are returned. The
  filter at line 193 matches the wrong column, so the row of a failed
  transfer stays (see Findings).
- `downloading_city_csv` guards an empty city list with an `assert`
  (utils_aws.py:87). The model fails with `AssertionError`.

A failed transfer leaves its file behind. A second pass over the same rows
therefore fetches nothing and keeps every row
(`Reconciliation.RerunKeepsEveryRow`). As written, the first pass also keeps
every row when no service id equals an image reference
(`Reconciliation.WrongColumnKeepsEveryRow`), so both passes return the same
rows. With the corrected column the two passes differ: the first drops the
row of a failed image and the second keeps it
(`Pipeline.MissingImageReturns`).

## Model

| member | source | states |
|---|---|---|
| Lists.Index | foodi_ml/src/utils/utils_dataset.py:39 | Python indexing: succeeds exactly for -n <= idx < n, negative indices count from the end, IndexError otherwise |
| Lists.DropLast | foodi_ml/src/utils/utils_aws.py:57 | `xs[:-1]` is one element shorter (an empty list stays empty) and agrees with `xs` at every position it keeps |
| Lists.Pop | foodi_ml/src/utils/utils_aws.py:57 | `pop()` returns the last element; on an empty list it raises IndexError |
| Lists.Remove | foodi_ml/src/utils/utils_aws.py:115 | `list.remove` succeeds exactly when the element occurs, raises ValueError otherwise, and removes one element |
| Lists.RemoveAfter | foodi_ml/src/utils/utils_aws.py:115 | `list.remove` deletes the first occurrence: it skips a prefix that does not contain the element |
| Paths.Split | foodi_ml/src/utils/utils_aws.py:57 | `split("/")` gives one more part than there are separators, and no part contains a separator |
| Paths.SplitConcat | foodi_ml/src/utils/utils_aws.py:57 | splitting `a + "/" + b` gives the parts of `a` followed by the parts of `b` |
| Paths.UnsplitSplit | foodi_ml/src/utils/utils_aws.py:57 | joining the parts of a split with "/" gives the string back |
| Paths.SplitUnsplit | foodi_ml/src/utils/utils_aws.py:57 | splitting a "/"-join of separator-free parts gives the parts back |
| Paths.LastSegment | foodi_ml/src/utils/utils_aws.py:137 | `ref.split("/")[-1]` never contains a separator |
| Paths.LastSegmentIsSuffix | foodi_ml/src/utils/utils_aws.py:182 | the last segment is a suffix of the reference, and it is preceded by "/" when it is shorter than the reference |
| Paths.Join | foodi_ml/src/utils/utils_aws.py:102 | `os.path.join(a, b)` holds all of `b`, all of `a` unless `b` is absolute, and adds at most one separator; its content is stated by `Paths.JoinAffixes`, `Paths.JoinSplit` and `Paths.JoinName` |
| Paths.JoinAffixes | foodi_ml/src/utils/utils_aws.py:102 | `os.path.join(a, b)` ends with `b`; an absolute `b` is the whole result; otherwise the result starts with `a` |
| Paths.JoinSplit | foodi_ml/src/utils/utils_aws.py:138 | joining a relative path under a directory appends its segments to the directory's segments; a trailing "/" on the directory adds no segment |
| Paths.JoinName | foodi_ml/src/utils/utils_aws.py:183 | joining a file name under a directory makes it the last segment, after the directory's segments |
| AwsTools.CityOfPrefix | foodi_ml/src/utils/utils_aws.py:57 | `prefix.split("/")[:-1].pop()` succeeds exactly when the prefix contains "/", raises IndexError otherwise, and gives a separator-free name |
| AwsTools.CityOfCommonPrefix | foodi_ml/src/utils/utils_aws.py:57 | the common prefix `root/city/` that S3 reports for a sub-folder parses back to `city` |
| AwsTools.CityOfPrefixExample | foodi_ml/src/utils/utils_aws.py:57 | `"artifacts/002/CUG/"` parses to `"CUG"` |
| AwsTools.ParseCities | foodi_ml/src/utils/utils_aws.py:55-57 | parsing the listing raises only IndexError, and on success gives as many cities as there are entries with a `Prefix` |
| AwsTools.ParseCitiesSpec | foodi_ml/src/utils/utils_aws.py:55-57 | entries without `Prefix` are skipped; parsing succeeds exactly when every present prefix contains "/", and then gives one city per present prefix, in listing order |
| AwsTools.CreateListCities | foodi_ml/src/utils/utils_aws.py:52-58 | no `CommonPrefixes` gives no cities; otherwise one city per entry with a `Prefix`, in order; a prefix without "/" raises IndexError |
| AwsTools.CsvKeyLayout | foodi_ml/src/utils/utils_aws.py:105 | the manifest key is the prefix's segments, then the city, then the manifest name |
| AwsTools.CsvPathLayout | foodi_ml/src/utils/utils_aws.py:99-102 | the local manifest is the file `<city>.csv` directly inside the local folder |
| AwsTools.KeepDownloadedSpec | foodi_ml/src/utils/utils_aws.py:93-120 | a city is kept exactly when it is in the input and its manifest transfer succeeds; every occurrence of a kept city survives and no occurrence of a failed one; the kept cities are a subsequence of the input |
| AwsTools.KeepDownloadedSnoc | foodi_ml/src/utils/utils_aws.py:96-118 | filtering one more city appends it exactly when its transfer succeeds |
| AwsTools.KeepFetchedCity | foodi_ml/src/utils/utils_aws.py:116-118 | a city whose transfer succeeds leaves the working list as it is |
| AwsTools.DropFailedCity | foodi_ml/src/utils/utils_aws.py:112-115 | removing a failed city's first occurrence from the working list filters that city out |
| AwsTools.CsvTransfersAt | foodi_ml/src/utils/utils_aws.py:96-111 | one transfer per city, in city order, from the city's key to its local file |
| AwsTools.DownloadingCityCsv | foodi_ml/src/utils/utils_aws.py:87-120 | an empty city list fails the assertion; otherwise the result is the input with exactly the failed cities removed, in order, after one transfer per city from `prefix/city/csv_name` to `local_folder/city.csv` |
| Manifest.LocalPathLayout | foodi_ml/src/utils/utils_aws.py:182-183 | an image's local path is the base directory's segments followed by the reference's file name |
| Manifest.LocalPathNames | foodi_ml/src/utils/utils_aws.py:182-183 | two references with the same local path share their file name |
| Manifest.DropWhere | foodi_ml/src/utils/utils_aws.py:193 | the boolean-mask filter keeps exactly the rows whose cell is not a dropped key, in their original order |
| Manifest.DropWhereCount | foodi_ml/src/utils/utils_aws.py:193 | the filter keeps every occurrence of a row whose cell is not a dropped key, and no occurrence of the others |
| Manifest.DropWhereNothing | foodi_ml/src/utils/utils_aws.py:193 | a filter that matches no row leaves the table unchanged |
| Manifest.DropWhereTwice | foodi_ml/src/utils/utils_aws.py:181-193 | filtering by one set of keys and then by another is filtering by their union |
| Manifest.WithPaths | foodi_ml/src/utils/utils_aws.py:197-199 | adding `img_path` keeps the rows and gives each the local path of its own reference |
| ImageDownload.CreateJobs | foodi_ml/src/utils/utils_aws.py:134-140 | one job per row, in row order: the row's reference and the local file named after its last segment |
| ImageDownload.CreateJobsSnoc | foodi_ml/src/utils/utils_aws.py:136-139 | one more row appends its job at the end |
| ImageDownload.DownloadImages | foodi_ml/src/utils/utils_aws.py:143-155 | an existing file gives true without a transfer; otherwise the file is created and the result is false exactly when the transfer raised |
| ImageDownload.DownloadImagesRerun | foodi_ml/src/utils/utils_aws.py:145-152 | after a failed job its file exists, so running the job again gives true without a transfer |
| ImageDownload.RunJobs | foodi_ml/src/utils/utils_aws.py:143-155 | running jobs in order gives one outcome per job, aligned with the jobs, and leaves every destination on disk |
| ImageDownload.RunJobsOutcome | foodi_ml/src/utils/utils_aws.py:145-155 | a job transfers exactly when its file was neither on disk nor created by an earlier job, and returns false exactly when that transfer raised |
| ImageDownload.RunJobsOutcomes | foodi_ml/src/utils/utils_aws.py:145-155 | the same characterisation for every job of the run |
| ImageDownload.FailedKeysSnoc | foodi_ml/src/utils/utils_aws.py:188-193 | one more outcome adds its reference to the failed references exactly when it failed |
| ImageDownload.Reconcile | foodi_ml/src/utils/utils_aws.py:181-199 | one outcome per row for the row's own image; the rows kept are exactly those whose chosen column is not a failed reference, in order; each has the local path of its own image |
| ImageDownload.ReconcileCount | foodi_ml/src/utils/utils_aws.py:181-199 | a pass keeps every occurrence of a row whose chosen column is not a failed reference, and no occurrence of the others |
| ImageDownload.ReconcileDisk | foodi_ml/src/utils/utils_aws.py:184-187 | after a pass the disk holds what it held before plus the local file of every row, whether the transfer succeeded or not |
| ImageDownload.ReconcileOutcomes | foodi_ml/src/utils/utils_aws.py:184-188 | files already on disk are never fetched; a row's image is fetched exactly when no earlier row named the same file; the outcome is false exactly when that transfer raised |
| ImageDownload.DropFailedNext | foodi_ml/src/utils/utils_aws.py:188-193 | dropping the rows of one more failed reference after earlier ones drops the rows of all of them |
| ImageDownload.DownloadImgsInDisk | foodi_ml/src/utils/utils_aws.py:181-200 | the sequential loop computes the job run followed by dropping rows whose `image_service_id` equals a failed reference, then adds `img_path` |
| Reconciliation.FailedKeysAreRefs | foodi_ml/src/utils/utils_aws.py:188-193 | every failed key is the image reference of a row whose transfer failed |
| Reconciliation.WrongColumnKeepsEveryRow | foodi_ml/src/utils/utils_aws.py:193 | when service ids never equal image references, the filter as written drops no row, including the rows whose transfer failed |
| Reconciliation.FailedRefs | foodi_ml/src/utils/utils_aws.py:184-193 | with distinct file names, a reference is failed exactly when its file was not on disk and its transfer raised |
| Reconciliation.ReconcileByRefKeepsLanded | foodi_ml/src/utils/utils_aws.py:192-193 | matching on `image_names_s3` with distinct file names keeps a row exactly when its file was already on disk or its transfer succeeded |
| Reconciliation.RerunKeepsEveryRow | foodi_ml/src/utils/utils_aws.py:184-187 | a second pass on the disk the first left fetches nothing, reports every job as a success and keeps every row, whichever column is matched |
| DatasetView.GetSamples | foodi_ml/src/utils/utils_dataset.py:26-27 | `get_samples` returns the manifest the view holds; with the tag it determines the view |
| DatasetView.Len | foodi_ml/src/utils/utils_dataset.py:43-44 | `__len__` is the number of rows `get_samples` returns |
| DatasetView.NewView | foodi_ml/src/utils/utils_dataset.py:9-27 | the view keeps the samples and the tag as given: `get_samples` returns the samples and the length is their number |
| DatasetView.CityCode | foodi_ml/src/utils/utils_dataset.py:39 | `ref.split("/")[-3]` succeeds exactly when the reference has at least two "/", raises IndexError otherwise, and gives a separator-free segment |
| DatasetView.ImageRefLayout | foodi_ml/src/utils/utils_dataset.py:35-39 | for `root/city/folder/file` the city code is `city` and the last segment is `file`, whatever the root |
| DatasetView.GetItem | foodi_ml/src/utils/utils_dataset.py:29-41 | an out-of-range position raises IndexError; then a file that cannot be opened, converted to RGB and transformed raises OSError; then a missing city code raises IndexError; an item exists exactly when none of these happens, and carries the row's `img_path`, service id and product id, and as city code the tag if set, otherwise the third-from-last segment |
| DatasetView.TagOverridesCity | foodi_ml/src/utils/utils_dataset.py:36-40 | with a tag, an in-range item exists exactly when its file decodes, and reports the tag; it differs from the untagged item only in the city code |
| Pipeline.MissingImageKept | foodi_ml/src/utils/utils_aws.py:184-193 | a one-row manifest whose image is missing: the transfer fails, yet the row is kept as written |
| Pipeline.MissingImageDropped | foodi_ml/src/utils/utils_aws.py:193 | on the same manifest, matching on `image_names_s3` drops the row |
| Pipeline.MissingImageReturns | foodi_ml/src/utils/utils_aws.py:184-193 | with the corrected column, the first pass drops the row of the missing image and a second pass on the disk it left keeps the row |
| Pipeline.MissingImageRead | foodi_ml/src/utils/utils_dataset.py:29-41 | as written, the row of a missing image reaches the dataset view with the path of the file the failed transfer left behind; when such files do not decode, reading the item raises OSError |

## Left out

- `AWSConnector`, `AWSBasics.download_obj` and `download_subfolders` are network calls through boto3. A transfer's outcome is the oracle `downloadOk(key)`, and the listing is the `Listing` parameter.
- `download_obj` returns false only on `ClientError`, and any other exception propagates. The model treats every failed manifest transfer as returning false.
- The listing is taken as one page. `list_objects_v2` pagination is not modelled.
- `ImageDownloaderParallelS3.initialize`, the global `con_parallel` and the worker pool are concurrency. `RunJobs` runs the jobs in order, each seeing the files the earlier ones created. With a real pool, two jobs for the same file can race.
- `os.makedirs`, the bytes written to files and `remove_images_from_disk` are file-system I/O. The disk is a set of full paths; a file exists once it is opened for writing.
- The case where `open(full_name, "wb")` itself raises is not modelled. The model assumes the file can always be created.
- PIL decoding and the torchvision transform are floating-point work in external libraries. Whether `Image.open(path).convert("RGB")` and the transform succeed on the file at a path is the oracle `decodes`, and an item carries the `img_path` it opened instead of the tensor.
- `DatasetView.GetItem`: every failure to read the image is the one error `OSError`, the common base of PIL's `UnidentifiedImageError` (no recognisable format, as for an empty file), the truncated-file error of `convert` and `FileNotFoundError`; which subclass is raised is not modelled.
- `verbose` printing is not modelled.
- The constants of foodi_ml/config/configs.py are parameters.
- pandas tables are sequences of `Row` with the three columns the code reads. `product_id` is an integer column, so `int(product_id.item())` is the identity. Other columns are not modelled.
- `Paths.Join` is POSIX `os.path.join` for two components; the code's three-component call is two nested joins. Path normalisation is not modelled: the code performs none.
- `download_imgs_in_disk` writes `img_path` into the caller's DataFrame in place when no transfer failed (utils_aws.py:197); the `.copy()` at line 193 runs only after a failure. The model returns a new sequence of samples in both cases, so the aliasing is not modelled.
- `Lists.Remove`: its contract states membership, error and length only. The exact resulting list is stated by `Lists.RemoveAfter`.

## Findings

| source | as written | input that shows it | evidently intended | confidence | as-written member | corrected member |
|---|---|---|---|---|---|---|
| foodi_ml/src/utils/utils_aws.py:193 | after a failed transfer, drops the rows whose `image_service_id` equals the failed image reference | one row with reference `v2/CUG/images/1_2.png`, service id `2`, an empty disk and a bucket without that key: the transfer fails and the row is kept, pointing at the file the failed transfer left | drop the rows whose `image_names_s3` equals the failed reference, so only rows whose image arrived (or was already on disk) survive | not executed; high, because the comment at line 192 asks the same question and the docstring at lines 176-177 promises only successfully downloaded rows; the docstring at lines 172-173 still describes `image_service_id` as holding the URLs, which would explain the choice of column | Pipeline.MissingImageKept | Reconciliation.ReconcileByRefKeepsLanded |
