/** `ImageEmbeddingsDatasetPrediction` of utils_dataset.py: a read-only,
    index-addressable view over the reconciled manifest. Decoding and
    normalising the image is outside the model: whether the file at a path
    decodes is the oracle `decodes`, and an item carries the `img_path`
    that was opened instead of the pixel tensor. */
module DatasetView {
  import opened Wrappers
  import opened Lists
  import opened Paths
  import opened Manifest

  /** The dataset: its manifest rows and the optional city tag that
      overrides the city code of every item. */
  datatype View = View(samples: seq<Sample>, tag: Option<string>)

  /** One dataset item: the image to decode, the image service id, the
      product id and the city code. */
  datatype Item = Item(image: string, serviceId: string, productId: int, cityCode: string)

  /** `get_samples`: the manifest the view was built over; with the tag it
      determines the view. */
  function GetSamples(v: View): (samples: seq<Sample>)
    ensures View(samples, v.tag) == v
  {
    v.samples
  }

  /** `__len__`: the number of manifest rows. */
  function Len(v: View): (n: nat)
    ensures n == |GetSamples(v)|
  {
    |v.samples|
  }

  /** `__init__`: the view keeps the manifest and the tag as given. */
  function NewView(samples: seq<Sample>, tag: Option<string>): (v: View)
    ensures GetSamples(v) == samples
    ensures Len(v) == |samples|
    ensures v.tag == tag
  {
    View(samples, tag)
  }

  /** `ref.split("/")[-3]`: the third segment from the end, which for an
      image reference `artifacts/<version>/<city>/images/<file>` is the
      city. A reference with fewer than two '/' raises IndexError. */
  function CityCode(ref: string): (r: Result<string>)
    ensures r.Success? <==> Slashes(ref) >= 2
    ensures r.Failure? ==> r.error == IndexError
    ensures r.Success? ==> '/' !in r.value
  {
    Index(Split(ref), -3)
  }

  /** An image reference `root/city/folder/file` with plain city, folder
      and file names yields its city as city code and its file name as
      last segment, whatever the root. */
  lemma ImageRefLayout(root: string, city: string, folder: string, file: string)
    requires '/' !in city && '/' !in folder && '/' !in file
    ensures CityCode(root + "/" + city + "/" + folder + "/" + file) == Success(city)
    ensures LastSegment(root + "/" + city + "/" + folder + "/" + file) == file
  {
    var a := root + "/" + city;
    var b := a + "/" + folder;
    var ref := b + "/" + file;
    SplitConcat(root, city);
    SplitSlashFree(city);
    SplitConcat(a, folder);
    SplitSlashFree(folder);
    SplitConcat(b, file);
    SplitSlashFree(file);
    assert Split(ref) == Split(root) + [city] + [folder] + [file];
  }

  /** The position `iloc[idx]` addresses in a frame of `n` rows: negative
      indices count from the end. */
  function Position(n: nat, idx: int): int {
    if idx < 0 then n + idx else idx
  }

  /** `__getitem__`: the row at `iloc[idx]` (IndexError when out of range);
      its `img_path` is opened, converted to RGB and transformed first
      (OSError when that fails); then its image service id and product id, and as
      city code the tag when one was given, otherwise the third-from-last
      segment of the row's image reference (IndexError when there is
      none). */
  function GetItem(v: View, idx: int, decodes: string -> bool): (r: Result<Item>)
    ensures !(-|v.samples| <= idx < |v.samples|) ==> r == Failure(IndexError)
    ensures -|v.samples| <= idx < |v.samples| ==>
      var s := v.samples[Position(Len(v), idx)];
      (!decodes(s.imgPath) ==> r == Failure(OSError)) &&
      (decodes(s.imgPath) && r.Failure? ==> r.error == IndexError)
    ensures r.Success? <==> (-|v.samples| <= idx < |v.samples| &&
      decodes(v.samples[Position(Len(v), idx)].imgPath) &&
      (v.tag.Some? || Slashes(v.samples[Position(Len(v), idx)].row.imageNamesS3) >= 2))
    ensures r.Success? ==>
      var s := v.samples[Position(Len(v), idx)];
      r.value.image == s.imgPath && r.value.serviceId == s.row.imageServiceId &&
      r.value.productId == s.row.productId &&
      (v.tag.Some? ==> r.value.cityCode == v.tag.value) &&
      (v.tag.None? ==> var parts := Split(s.row.imageNamesS3); r.value.cityCode == parts[|parts| - 3])
  {
    var s :- Index(v.samples, idx);
    var _ :- if decodes(s.imgPath) then Success(()) else Failure(OSError);
    var cityCode :- if v.tag.Some? then Success(v.tag.value) else CityCode(s.row.imageNamesS3);
    Success(Item(s.imgPath, s.row.imageServiceId, s.row.productId, cityCode))
  }

  /** Every item of a view whose image decodes reports the tag as its city
      code, and the same item as the untagged view in every other field. */
  lemma TagOverridesCity(samples: seq<Sample>, tag: string, idx: int, decodes: string -> bool)
    requires -|samples| <= idx < |samples|
    ensures var tagged := GetItem(NewView(samples, Some(tag)), idx, decodes);
      tagged.Success? <==> decodes(samples[Position(|samples|, idx)].imgPath)
    ensures var tagged := GetItem(NewView(samples, Some(tag)), idx, decodes);
      tagged.Success? ==> tagged.value.cityCode == tag
    ensures var tagged := GetItem(NewView(samples, Some(tag)), idx, decodes);
      var untagged := GetItem(NewView(samples, None), idx, decodes);
      untagged.Success? ==> untagged.value == tagged.value.(cityCode := untagged.value.cityCode)
  {
  }
}
