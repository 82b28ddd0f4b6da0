/** `AWSTools` of utils_aws.py: turning an S3 listing into city names, and
    downloading one CSV manifest per city while dropping the cities whose
    manifest cannot be fetched. The listing itself and each transfer come
    from outside: the listing is a parameter, and a transfer succeeds
    exactly when the oracle `downloadOk` accepts its key. */
module AwsTools {
  import opened Wrappers
  import opened Lists
  import opened Paths
  import opened Storage

  /** One `CommonPrefixes` entry of a `list_objects_v2` response, whose
      `Prefix` may be absent. */
  datatype PrefixEntry = PrefixEntry(prefix: Option<string>)

  /** The part of a `list_objects_v2` response that is parsed: the
      `CommonPrefixes` list, which may be absent. */
  datatype Listing = Listing(commonPrefixes: Option<seq<PrefixEntry>>)

  /** `prefix.split("/")[:-1].pop()`: the segment before the last '/'.
      A prefix without any '/' leaves nothing to pop. */
  function CityOfPrefix(p: string): (r: Result<string>)
    ensures r.Success? <==> '/' in p
    ensures r.Failure? ==> r.error == IndexError
    ensures r.Success? ==> '/' !in r.value
  {
    Pop(DropLast(Split(p)))
  }

  /** S3 reports a sub-folder `city` of `root` as the common prefix
      `root/city/`; parsing that prefix gives the city back. */
  lemma CityOfCommonPrefix(root: string, city: string)
    requires '/' !in city
    ensures CityOfPrefix(Join(root, city) + "/") == Success(city)
  {
    var j := Join(root, city);
    JoinName(root, city);
    SplitConcat(j, "");
    assert j + "/" == j + "/" + "";
    assert DropLast(Split(j) + [""]) == Split(j);
  }

  /** The listing of the configured root gives its city folders. */
  lemma CityOfPrefixExample()
    ensures CityOfPrefix("artifacts/002/CUG/") == Success("CUG")
  {
    assert !IsAbsolute("CUG");
    assert Join("artifacts/002", "CUG") == "artifacts/002" + "/" + "CUG";
    assert "artifacts/002" + "/" + "CUG" + "/" == "artifacts/002/CUG/";
    CityOfCommonPrefix("artifacts/002", "CUG");
  }

  /** The `Prefix` values of the entries that carry one, in listing
      order. */
  function PresentPrefixes(entries: seq<PrefixEntry>): seq<string>
    decreases |entries|
  {
    if |entries| == 0 then []
    else
      match entries[0].prefix
      case None => PresentPrefixes(entries[1..])
      case Some(p) => [p] + PresentPrefixes(entries[1..])
  }

  /** Every present prefix contains a '/', so that each can be parsed. */
  predicate AllNested(ps: seq<string>) {
    forall k :: 0 <= k < |ps| ==> '/' in ps[k]
  }

  /** The loop of `create_list_cities` over the `CommonPrefixes` entries:
      entries without `Prefix` are skipped, every other entry gives one
      city, and the first prefix without '/' raises. */
  function ParseCities(entries: seq<PrefixEntry>): (r: Result<seq<string>>)
    ensures r.Failure? ==> r.error == IndexError
    ensures r.Success? ==> |r.value| == |PresentPrefixes(entries)|
    decreases |entries|
  {
    if |entries| == 0 then Success([])
    else
      match entries[0].prefix
      case None => ParseCities(entries[1..])
      case Some(p) =>
        var city :- CityOfPrefix(p);
        var rest :- ParseCities(entries[1..]);
        Success([city] + rest)
  }

  /** `cities` is what parsing each of `ps` gives, position by position. */
  predicate ParsedAs(ps: seq<string>, cities: seq<string>) {
    |ps| == |cities| && forall k :: 0 <= k < |ps| ==> CityOfPrefix(ps[k]) == Success(cities[k])
  }

  lemma AllNestedCons(p: string, ps: seq<string>)
    ensures AllNested([p] + ps) <==> '/' in p && AllNested(ps)
  {
    var all := [p] + ps;
    assert all[0] == p;
    assert forall k :: 0 <= k < |ps| ==> all[k + 1] == ps[k];
  }

  lemma ParsedAsCons(p: string, ps: seq<string>, city: string, cities: seq<string>)
    requires CityOfPrefix(p) == Success(city) && ParsedAs(ps, cities)
    ensures ParsedAs([p] + ps, [city] + cities)
  {
    var all, out := [p] + ps, [city] + cities;
    forall k | 0 <= k < |all|
      ensures CityOfPrefix(all[k]) == Success(out[k])
    {
      if k > 0 {
        assert all[k] == ps[k - 1] && out[k] == cities[k - 1];
      }
    }
  }

  /** Parsing succeeds exactly when every present prefix contains '/', and
      then gives one city per present prefix, in listing order. */
  lemma {:induction false} ParseCitiesSpec(entries: seq<PrefixEntry>)
    ensures var r := ParseCities(entries); var ps := PresentPrefixes(entries);
      (r.Success? <==> AllNested(ps)) &&
      (r.Failure? ==> r.error == IndexError) &&
      (r.Success? ==> ParsedAs(ps, r.value))
    decreases |entries|
  {
    if |entries| > 0 {
      ParseCitiesSpec(entries[1..]);
      match entries[0].prefix
      case None =>
      case Some(p) =>
        var rps := PresentPrefixes(entries[1..]);
        assert PresentPrefixes(entries) == [p] + rps;
        AllNestedCons(p, rps);
        var r := ParseCities(entries);
        if r.Success? {
          ParsedAsCons(p, rps, CityOfPrefix(p).value, ParseCities(entries[1..]).value);
        }
    }
  }

  /** `create_list_cities` after the listing call: no `CommonPrefixes`
      gives no cities; otherwise one city per entry that has a `Prefix`, in
      listing order, and a prefix without '/' raises IndexError. */
  function CreateListCities(listing: Listing): (r: Result<seq<string>>)
    ensures listing.commonPrefixes.None? ==> r == Success([])
    ensures listing.commonPrefixes.Some? ==>
      var ps := PresentPrefixes(listing.commonPrefixes.value);
      (r.Success? <==> AllNested(ps)) &&
      (r.Failure? ==> r.error == IndexError) &&
      (r.Success? ==> ParsedAs(ps, r.value))
  {
    match listing.commonPrefixes
    case None => Success([])
    case Some(entries) =>
      ParseCitiesSpec(entries);
      ParseCities(entries)
  }

  /** The S3 key of a city's manifest: `os.path.join(s3_key_prefix, city,
      csv_name)`. */
  function CsvKey(s3KeyPrefix: string, city: string, csvName: string): string {
    Join(Join(s3KeyPrefix, city), csvName)
  }

  /** The local file of a city's manifest: `os.path.join(local_folder,
      f"{city}.csv")`. */
  function CsvPath(localFolder: string, city: string): string {
    Join(localFolder, city + ".csv")
  }

  /** For a plain city name and manifest name, the key is the prefix's
      segments followed by the city and the manifest name. */
  lemma CsvKeyLayout(s3KeyPrefix: string, city: string, csvName: string)
    requires city != "" && '/' !in city && '/' !in csvName
    ensures Split(CsvKey(s3KeyPrefix, city, csvName)) == DirSegments(s3KeyPrefix) + [city, csvName]
  {
    var folder := Join(s3KeyPrefix, city);
    JoinName(s3KeyPrefix, city);
    assert DirSegments(folder) == Split(folder);
    JoinName(folder, csvName);
  }

  /** For a plain city name, the local manifest is the file `<city>.csv`
      directly inside the local folder. */
  lemma CsvPathLayout(localFolder: string, city: string)
    requires '/' !in city
    ensures Split(CsvPath(localFolder, city)) == DirSegments(localFolder) + [city + ".csv"]
    ensures LastSegment(CsvPath(localFolder, city)) == city + ".csv"
  {
    assert '/' !in ".csv";
    JoinName(localFolder, city + ".csv");
  }

  /** The cities whose manifest transfer succeeds, in their original
      order. */
  function KeepDownloaded(cities: seq<string>, s3KeyPrefix: string, csvName: string,
                          downloadOk: string -> bool): seq<string>
    decreases |cities|
  {
    if |cities| == 0 then []
    else
      var rest := KeepDownloaded(cities[1..], s3KeyPrefix, csvName, downloadOk);
      if downloadOk(CsvKey(s3KeyPrefix, cities[0], csvName)) then [cities[0]] + rest else rest
  }

  /** A city survives exactly when it is in the input and its manifest
      transfer succeeds, every occurrence of it is kept, and the survivors
      keep their relative order. */
  lemma {:induction false} KeepDownloadedSpec(cities: seq<string>, s3KeyPrefix: string, csvName: string,
                                              downloadOk: string -> bool)
    ensures var kept := KeepDownloaded(cities, s3KeyPrefix, csvName, downloadOk);
      (forall c :: c in kept <==> c in cities && downloadOk(CsvKey(s3KeyPrefix, c, csvName))) &&
      (forall c :: multiset(kept)[c] ==
        (if downloadOk(CsvKey(s3KeyPrefix, c, csvName)) then multiset(cities)[c] else 0)) &&
      IsSubseq(kept, cities)
    decreases |cities|
  {
    if |cities| > 0 {
      KeepDownloadedSpec(cities[1..], s3KeyPrefix, csvName, downloadOk);
      var rest := KeepDownloaded(cities[1..], s3KeyPrefix, csvName, downloadOk);
      assert cities == [cities[0]] + cities[1..];
      if downloadOk(CsvKey(s3KeyPrefix, cities[0], csvName)) {
        SubseqKeep(rest, cities[0], cities[1..]);
      } else {
        SubseqSkip(rest, cities[0], cities[1..]);
      }
    }
  }

  /** Filtering one more city appends it when its transfer succeeds. */
  lemma {:induction false} KeepDownloadedSnoc(cities: seq<string>, c: string, s3KeyPrefix: string,
                                              csvName: string, downloadOk: string -> bool)
    ensures KeepDownloaded(cities + [c], s3KeyPrefix, csvName, downloadOk) ==
      KeepDownloaded(cities, s3KeyPrefix, csvName, downloadOk) +
      (if downloadOk(CsvKey(s3KeyPrefix, c, csvName)) then [c] else [])
    decreases |cities|
  {
    var all := cities + [c];
    if |cities| == 0 {
      assert all == [c];
      assert all[1..] == [];
    } else {
      assert all[0] == cities[0];
      assert all[1..] == cities[1..] + [c];
      KeepDownloadedSnoc(cities[1..], c, s3KeyPrefix, csvName, downloadOk);
    }
  }

  /** One iteration of the loop of `downloading_city_csv` for a city whose
      manifest arrives: the list is left as it is. */
  lemma KeepFetchedCity(cities: seq<string>, i: int, s3KeyPrefix: string, csvName: string,
                        downloadOk: string -> bool)
    requires 0 <= i < |cities|
    requires downloadOk(CsvKey(s3KeyPrefix, cities[i], csvName))
    ensures KeepDownloaded(cities[..i + 1], s3KeyPrefix, csvName, downloadOk) + cities[i + 1..] ==
      KeepDownloaded(cities[..i], s3KeyPrefix, csvName, downloadOk) + cities[i..]
  {
    var kept := KeepDownloaded(cities[..i], s3KeyPrefix, csvName, downloadOk);
    assert KeepDownloaded(cities[..i + 1], s3KeyPrefix, csvName, downloadOk) == kept + [cities[i]] by {
      TakeSnoc(cities, i);
      KeepDownloadedSnoc(cities[..i], cities[i], s3KeyPrefix, csvName, downloadOk);
    }
    var c, rest := cities[i], cities[i + 1..];
    calc {
      kept + cities[i..];
      { assert cities[i..] == [c] + rest; }
      kept + ([c] + rest);
      { AppendAssoc(kept, [c], rest); }
      kept + [c] + rest;
    }
  }

  /** One iteration of the loop of `downloading_city_csv` for a city whose
      manifest does not arrive: removing the first occurrence of the city
      from the not-yet-filtered part gives the filter of one more city. */
  lemma DropFailedCity(cities: seq<string>, i: int, s3KeyPrefix: string, csvName: string,
                       downloadOk: string -> bool)
    requires 0 <= i < |cities|
    requires !downloadOk(CsvKey(s3KeyPrefix, cities[i], csvName))
    ensures Remove(KeepDownloaded(cities[..i], s3KeyPrefix, csvName, downloadOk) + cities[i..], cities[i]) ==
      Success(KeepDownloaded(cities[..i + 1], s3KeyPrefix, csvName, downloadOk) + cities[i + 1..])
  {
    var kept := KeepDownloaded(cities[..i], s3KeyPrefix, csvName, downloadOk);
    var c, rest := cities[i], cities[i + 1..];
    assert KeepDownloaded(cities[..i + 1], s3KeyPrefix, csvName, downloadOk) == kept by {
      TakeSnoc(cities, i);
      KeepDownloadedSnoc(cities[..i], c, s3KeyPrefix, csvName, downloadOk);
    }
    assert kept + cities[i..] == kept + [c] + rest by {
      assert cities[i..] == [c] + rest;
    }
    assert c !in kept by {
      KeepDownloadedSpec(cities[..i], s3KeyPrefix, csvName, downloadOk);
    }
    RemoveAfter(kept, c, rest);
  }

  /** The transfer `downloading_city_csv` attempts for one city. */
  function CsvTransfer(s3KeyPrefix: string, csvName: string, localFolder: string, city: string): Transfer {
    Transfer(CsvKey(s3KeyPrefix, city, csvName), CsvPath(localFolder, city))
  }

  /** The transfers attempted for a list of cities, in order. */
  function CsvTransfers(s3KeyPrefix: string, csvName: string, localFolder: string,
                        cities: seq<string>): seq<Transfer>
    decreases |cities|
  {
    if |cities| == 0 then []
    else
      var n := |cities| - 1;
      CsvTransfers(s3KeyPrefix, csvName, localFolder, cities[..n]) +
        [CsvTransfer(s3KeyPrefix, csvName, localFolder, cities[n])]
  }

  /** One transfer per city, in the order of the cities. */
  lemma {:induction false} CsvTransfersAt(s3KeyPrefix: string, csvName: string, localFolder: string,
                                          cities: seq<string>)
    ensures var ts := CsvTransfers(s3KeyPrefix, csvName, localFolder, cities);
      |ts| == |cities| &&
      forall i :: 0 <= i < |cities| ==> ts[i] == CsvTransfer(s3KeyPrefix, csvName, localFolder, cities[i])
    decreases |cities|
  {
    if |cities| > 0 {
      var n := |cities| - 1;
      CsvTransfersAt(s3KeyPrefix, csvName, localFolder, cities[..n]);
      var pre := CsvTransfers(s3KeyPrefix, csvName, localFolder, cities[..n]);
      var ts := pre + [CsvTransfer(s3KeyPrefix, csvName, localFolder, cities[n])];
      forall i | 0 <= i < |cities|
        ensures ts[i] == CsvTransfer(s3KeyPrefix, csvName, localFolder, cities[i])
      {
        if i < n {
          assert ts[i] == pre[i] && cities[..n][i] == cities[i];
        }
      }
    }
  }

  /** What `downloading_city_csv` did: the surviving cities and the
      transfer attempted for each input city, in order. */
  datatype CsvRun = CsvRun(cities: seq<string>, transfers: seq<Transfer>)

  /** `downloading_city_csv`: an empty city list fails the assertion;
      otherwise the manifest of each city is fetched from
      `s3_key_prefix/city/csv_name` into `local_folder/city.csv`, and each
      city whose transfer fails is removed from a copy of the list with
      `list.remove`. The result is the input with exactly the failed cities
      removed, in order. */
  method DownloadingCityCsv(cities: seq<string>, s3KeyPrefix: string, csvName: string,
                            localFolder: string, downloadOk: string -> bool)
    returns (r: Result<CsvRun>)
    ensures r.Failure? <==> |cities| == 0
    ensures r.Failure? ==> r.error == AssertionError
    ensures r.Success? ==> r.value.cities == KeepDownloaded(cities, s3KeyPrefix, csvName, downloadOk)
    ensures r.Success? ==> |r.value.transfers| == |cities|
    ensures r.Success? ==> forall i :: 0 <= i < |cities| ==>
      r.value.transfers[i] == CsvTransfer(s3KeyPrefix, csvName, localFolder, cities[i])
  {
    if |cities| == 0 {
      return Failure(AssertionError);
    }
    var outCities := cities;
    var transfers: seq<Transfer> := [];
    var i := 0;
    while i < |cities|
      invariant 0 <= i <= |cities|
      invariant outCities == KeepDownloaded(cities[..i], s3KeyPrefix, csvName, downloadOk) + cities[i..]
      invariant transfers == CsvTransfers(s3KeyPrefix, csvName, localFolder, cities[..i])
    {
      var city := cities[i];
      var t := CsvTransfer(s3KeyPrefix, csvName, localFolder, city);
      var s3kFilePath := t.key;
      transfers := transfers + [t];
      TakeSnoc(cities, i);
      assert cities[..i + 1][..i] == cities[..i];
      if downloadOk(s3kFilePath) {
        KeepFetchedCity(cities, i, s3KeyPrefix, csvName, downloadOk);
      } else {
        DropFailedCity(cities, i, s3KeyPrefix, csvName, downloadOk);
        var removed := Remove(outCities, city);
        outCities := removed.value;
      }
      i := i + 1;
    }
    assert cities[..|cities|] == cities;
    CsvTransfersAt(s3KeyPrefix, csvName, localFolder, cities);
    return Success(CsvRun(outCities, transfers));
  }
}
