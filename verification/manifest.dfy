/** The manifest table the image downloaders reconcile: one `Row` per
    product image, with the columns the modelled code reads. pandas table
    mechanics are replaced by sequences of rows. */
module Manifest {
  import opened Lists
  import opened Paths

  /** One manifest row. `imageNamesS3` is the image's S3 key, of the form
      artifacts/<version>/<city_code>/images/<file>; `productId` is the
      integer `product_id` column. */
  datatype Row = Row(imageNamesS3: string, imageServiceId: string, productId: int)

  /** A row after `download_imgs_in_disk` added its `img_path` column. */
  datatype Sample = Sample(row: Row, imgPath: string)

  /** The string columns a failed download can be matched against. */
  datatype Column = ImageNamesS3 | ImageServiceId

  function Cell(r: Row, c: Column): string {
    match c
    case ImageNamesS3 => r.imageNamesS3
    case ImageServiceId => r.imageServiceId
  }

  /** Where an image is stored locally: `os.path.join(base_path,
      ref.split("/")[-1])`. */
  function LocalPath(basePath: string, ref: string): string {
    Join(basePath, LastSegment(ref))
  }

  /** A local image path is the base directory's segments followed by the
      reference's last segment, so it keeps the reference's file name. */
  lemma LocalPathLayout(basePath: string, ref: string)
    ensures Split(LocalPath(basePath, ref)) == DirSegments(basePath) + [LastSegment(ref)]
    ensures LastSegment(LocalPath(basePath, ref)) == LastSegment(ref)
  {
    JoinName(basePath, LastSegment(ref));
  }

  /** Two references with the same local path share their last segment. */
  lemma LocalPathNames(basePath: string, a: string, b: string)
    requires LocalPath(basePath, a) == LocalPath(basePath, b)
    ensures LastSegment(a) == LastSegment(b)
  {
    LocalPathLayout(basePath, a);
    LocalPathLayout(basePath, b);
  }

  /** The rows of a sample table. */
  function Rows(samples: seq<Sample>): (rows: seq<Row>)
    ensures |rows| == |samples|
    ensures forall k :: 0 <= k < |samples| ==> rows[k] == samples[k].row
  {
    seq(|samples|, k requires 0 <= k < |samples| => samples[k].row)
  }

  /** `samples[~samples[c].isin(keys)]`: the rows whose cell in column `c`
      is none of `keys`, in their original order. */
  function DropWhere(rows: seq<Row>, c: Column, keys: set<string>): (kept: seq<Row>)
    ensures forall r :: r in kept <==> r in rows && Cell(r, c) !in keys
    ensures IsSubseq(kept, rows)
    decreases |rows|
  {
    if |rows| == 0 then []
    else
      var rest := DropWhere(rows[1..], c, keys);
      assert rows == [rows[0]] + rows[1..];
      if Cell(rows[0], c) in keys then
        SubseqSkip(rest, rows[0], rows[1..]);
        rest
      else
        SubseqKeep(rest, rows[0], rows[1..]);
        [rows[0]] + rest
  }

  /** The filter keeps every occurrence of a row whose cell is not a key,
      and no occurrence of any other row. */
  lemma {:induction false} DropWhereCount(rows: seq<Row>, c: Column, keys: set<string>)
    ensures var kept := DropWhere(rows, c, keys);
      forall r :: multiset(kept)[r] == (if Cell(r, c) in keys then 0 else multiset(rows)[r])
    decreases |rows|
  {
    if |rows| > 0 {
      DropWhereCount(rows[1..], c, keys);
      assert rows == [rows[0]] + rows[1..];
    }
  }

  /** When no row's cell is a key, nothing is dropped. */
  lemma {:induction false} DropWhereNothing(rows: seq<Row>, c: Column, keys: set<string>)
    requires forall r :: r in rows ==> Cell(r, c) !in keys
    ensures DropWhere(rows, c, keys) == rows
    decreases |rows|
  {
    if |rows| > 0 {
      assert rows[0] in rows;
      DropWhereNothing(rows[1..], c, keys);
      assert rows == [rows[0]] + rows[1..];
    }
  }

  /** Dropping by one set of keys and then by another drops by their
      union. */
  lemma {:induction false} DropWhereTwice(rows: seq<Row>, c: Column, a: set<string>, b: set<string>)
    ensures DropWhere(DropWhere(rows, c, a), c, b) == DropWhere(rows, c, a + b)
    decreases |rows|
  {
    if |rows| > 0 {
      DropWhereTwice(rows[1..], c, a, b);
      var rest := DropWhere(rows[1..], c, a);
      if Cell(rows[0], c) !in a {
        assert ([rows[0]] + rest)[1..] == rest;
      }
    }
  }

  /** `samples["img_path"] = samples["image_names_s3"].apply(...)`: every
      row gets the local path named after its own reference. */
  function WithPaths(basePath: string, rows: seq<Row>): (samples: seq<Sample>)
    ensures Rows(samples) == rows
    ensures forall k :: 0 <= k < |rows| ==> samples[k].imgPath == LocalPath(basePath, rows[k].imageNamesS3)
  {
    var s := seq(|rows|, k requires 0 <= k < |rows| => Sample(rows[k], LocalPath(basePath, rows[k].imageNamesS3)));
    assert Rows(s) == rows;
    s
  }
}
