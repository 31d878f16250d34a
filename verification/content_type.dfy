/** `StorageService.detectContentType`: the MIME type guessed from a file
    name's suffix, used when the platform cannot probe the file. */
module ContentType {
  import opened Common
  import opened Strings

  const OctetStream := "application/octet-stream"

  /** The suffixes the service recognises, each with its type. */
  const Table: seq<(string, string)> := [
    (".jpg", "image/jpeg"), (".jpeg", "image/jpeg"), (".png", "image/png"), (".gif", "image/gif"),
    (".webp", "image/webp"), (".bmp", "image/bmp"), (".svg", "image/svg+xml"), (".ico", "image/x-icon"),
    (".tiff", "image/tiff"), (".tif", "image/tiff"), (".avif", "image/avif")]

  /** `detectContentType`: the first suffix of the lower-cased name that
      matches, in the order the service tests them. */
  function DetectContentType(fileName: Option<string>): (r: string)
    ensures fileName.None? ==> r == OctetStream
  {
    match fileName
    case None => OctetStream
    case Some(name) =>
      var lower := Lower(name);
      if EndsWith(lower, ".jpg") || EndsWith(lower, ".jpeg") then "image/jpeg"
      else if EndsWith(lower, ".png") then "image/png"
      else if EndsWith(lower, ".gif") then "image/gif"
      else if EndsWith(lower, ".webp") then "image/webp"
      else if EndsWith(lower, ".bmp") then "image/bmp"
      else if EndsWith(lower, ".svg") then "image/svg+xml"
      else if EndsWith(lower, ".ico") then "image/x-icon"
      else if EndsWith(lower, ".tiff") || EndsWith(lower, ".tif") then "image/tiff"
      else if EndsWith(lower, ".avif") then "image/avif"
      else OctetStream
  }

  /** A suffix that starts with '.' and has no other '.'. */
  predicate DotSuffix(s: string) {
    |s| >= 2 && s[0] == '.' && '.' !in s[1..]
  }

  /** A name ends with at most one such suffix. */
  lemma DotSuffixesExclusive(name: string, a: string, b: string)
    requires DotSuffix(a) && DotSuffix(b) && EndsWith(name, a) && EndsWith(name, b)
    ensures a == b
  {
    if |a| == |b| {
      assert a == name[|name| - |a|..] == b;
    }
  }

  /** Every suffix of the table is a dot suffix, and no suffix is listed twice. */
  lemma TableWellFormed()
    ensures forall i :: 0 <= i < |Table| ==> DotSuffix(Table[i].0)
    ensures forall i, j :: 0 <= i < j < |Table| ==> Table[i].0 != Table[j].0
  {
    forall i | 0 <= i < |Table| ensures DotSuffix(Table[i].0) {
      assert '.' !in Table[i].0[1..];
    }
  }

  /** The reference reading of the table: the type of its first suffix, from
      position `k` on, that ends the name. */
  function LookupFrom(lower: string, table: seq<(string, string)>, k: nat): (r: string)
    requires k <= |table|
    ensures (forall i :: k <= i < |table| ==> !EndsWith(lower, table[i].0)) ==> r == OctetStream
    decreases |table| - k
  {
    if k == |table| then OctetStream
    else if EndsWith(lower, table[k].0) then table[k].1
    else LookupFrom(lower, table, k + 1)
  }

  /** When the suffix at position `i` is the only one that ends the name,
      it decides, wherever it stands. */
  lemma {:induction false} LookupUnique(lower: string, table: seq<(string, string)>, k: nat, i: int)
    requires k <= i < |table| && EndsWith(lower, table[i].0)
    requires forall j :: k <= j < |table| && j != i ==> !EndsWith(lower, table[j].0)
    ensures LookupFrom(lower, table, k) == table[i].1
    decreases i - k
  {
    if k < i {
      LookupUnique(lower, table, k + 1, i);
    }
  }

  /** The last six entries of the table, read in order. */
  lemma LookupTail(lower: string)
    ensures LookupFrom(lower, Table, 5) ==
            if EndsWith(lower, ".bmp") then "image/bmp"
            else if EndsWith(lower, ".svg") then "image/svg+xml"
            else if EndsWith(lower, ".ico") then "image/x-icon"
            else if EndsWith(lower, ".tiff") || EndsWith(lower, ".tif") then "image/tiff"
            else if EndsWith(lower, ".avif") then "image/avif"
            else OctetStream
  {
    assert LookupFrom(lower, Table, 11) == OctetStream;
    assert LookupFrom(lower, Table, 10) == if EndsWith(lower, ".avif") then "image/avif" else LookupFrom(lower, Table, 11);
    assert LookupFrom(lower, Table, 9) == if EndsWith(lower, ".tif") then "image/tiff" else LookupFrom(lower, Table, 10);
    assert LookupFrom(lower, Table, 8) == if EndsWith(lower, ".tiff") then "image/tiff" else LookupFrom(lower, Table, 9);
    assert LookupFrom(lower, Table, 7) == if EndsWith(lower, ".ico") then "image/x-icon" else LookupFrom(lower, Table, 8);
    assert LookupFrom(lower, Table, 6) == if EndsWith(lower, ".svg") then "image/svg+xml" else LookupFrom(lower, Table, 7);
    assert LookupFrom(lower, Table, 5) == if EndsWith(lower, ".bmp") then "image/bmp" else LookupFrom(lower, Table, 6);
  }

  /** The service's chain of tests is the table read in order. */
  lemma ChainIsLookup(name: string)
    ensures DetectContentType(Some(name)) == LookupFrom(Lower(name), Table, 0)
  {
    var lower := Lower(name);
    LookupTail(lower);
    assert LookupFrom(lower, Table, 4) == if EndsWith(lower, ".webp") then "image/webp" else LookupFrom(lower, Table, 5);
    assert LookupFrom(lower, Table, 3) == if EndsWith(lower, ".gif") then "image/gif" else LookupFrom(lower, Table, 4);
    assert LookupFrom(lower, Table, 2) == if EndsWith(lower, ".png") then "image/png" else LookupFrom(lower, Table, 3);
    assert LookupFrom(lower, Table, 1) == if EndsWith(lower, ".jpeg") then "image/jpeg" else LookupFrom(lower, Table, 2);
    assert LookupFrom(lower, Table, 0) == if EndsWith(lower, ".jpg") then "image/jpeg" else LookupFrom(lower, Table, 1);
  }

  /** The service answers the table's type for every name whose lower-cased
      form ends with one of its suffixes, and the octet-stream type for every
      other name. */
  lemma DetectMatchesTable(name: string)
    ensures forall i :: 0 <= i < |Table| && EndsWith(Lower(name), Table[i].0) ==>
              DetectContentType(Some(name)) == Table[i].1
    ensures (forall i :: 0 <= i < |Table| ==> !EndsWith(Lower(name), Table[i].0)) ==>
              DetectContentType(Some(name)) == OctetStream
  {
    ChainIsLookup(name);
    TableWellFormed();
    var lower := Lower(name);
    forall i | 0 <= i < |Table| && EndsWith(lower, Table[i].0) ensures DetectContentType(Some(name)) == Table[i].1 {
      forall j | 0 <= j < |Table| && j != i ensures !EndsWith(lower, Table[j].0) {
        if EndsWith(lower, Table[j].0) {
          DotSuffixesExclusive(lower, Table[i].0, Table[j].0);
          assert false;
        }
      }
      LookupUnique(lower, Table, 0, i);
    }
  }

  /** `uploadFile`: the probed type when there is one, the guess otherwise. */
  function UploadContentType(probed: Option<string>, fileName: string): (r: string)
    ensures probed.Some? ==> r == probed.value
    ensures probed.None? ==> r == DetectContentType(Some(fileName))
  {
    match probed
    case Some(t) => t
    case None => DetectContentType(Some(fileName))
  }
}
