/** `FileUtils`: the extension of a file name, and the lowercase Base16
    rendering of a SHA-256 digest (section 8 of RFC 4648, lowercase alphabet)
    used as the content hash and deduplication key. */
module FileUtils {
  import opened Common
  import opened Strings

  /** A Java `byte`: signed, as `MessageDigest.digest` returns it. */
  newtype JavaByte = x: int | -128 <= x < 128

  /** `FileUtils.getExtension`: "" for a null name or a name without '.',
      otherwise the suffix that starts at the last '.'. */
  function GetExtension(filename: Option<string>): (r: string)
    ensures filename.None? ==> r == ""
    ensures filename.Some? && '.' !in filename.value ==> r == ""
    ensures filename.Some? && '.' in filename.value ==>
              && |r| >= 1
              && r[0] == '.'
              && '.' !in r[1..]
              && |r| <= |filename.value|
              && filename.value[..|filename.value| - |r|] + r == filename.value
  {
    match filename
    case None => ""
    case Some(f) =>
      var k := LastIndexOf(f, '.');
      if k == -1 then ""
      else
        assert f[..k] + f[k..] == f;
        f[k..]
  }

  predicate IsLowerHex(c: char) {
    '0' <= c <= '9' || 'a' <= c <= 'f'
  }

  /** The lowercase hexadecimal digit for `d`. */
  function HexDigit(d: int): (c: char)
    requires 0 <= d < 16
    ensures IsLowerHex(c)
  {
    if d < 10 then ('0' as int + d) as char else ('a' as int + d - 10) as char
  }

  /** The value of a lowercase hexadecimal digit. */
  function HexValue(c: char): (v: int)
    requires IsLowerHex(c)
    ensures 0 <= v < 16 && HexDigit(v) == c
  {
    if '0' <= c <= '9' then c as int - '0' as int else c as int - 'a' as int + 10
  }

  /** `0xff & b`: the byte read as unsigned. */
  function Unsigned(b: JavaByte): (u: int)
    ensures 0 <= u < 256
  {
    if b < 0 then b as int + 256 else b as int
  }

  /** `Integer.toHexString` of a value in [0, 256): lowercase, no leading zero. */
  function ToHexString(n: int): (r: string)
    requires 0 <= n < 256
    ensures |r| == 1 <==> n < 16
    ensures |r| == 1 ==> r == [HexDigit(n)]
    ensures |r| == 2 ==> r == [HexDigit(n / 16), HexDigit(n % 16)] && r[0] != '0'
  {
    if n < 16 then [HexDigit(n)] else [HexDigit(n / 16), HexDigit(n % 16)]
  }

  /** One digest byte as the loop in `calculateHash` renders it: its hex
      string, padded with a leading '0' when it has one digit. */
  function ByteHex(b: JavaByte): (r: string)
    ensures |r| == 2 && IsLowerHex(r[0]) && IsLowerHex(r[1])
    ensures HexValue(r[0]) * 16 + HexValue(r[1]) == Unsigned(b)
  {
    var u := Unsigned(b);
    var h := ToHexString(u);
    assert HexValue(HexDigit(u / 16)) == u / 16 && HexValue(HexDigit(u % 16)) == u % 16;
    if |h| == 1 then "0" + h else h
  }

  /** The digest rendered byte by byte. */
  function HexString(digest: seq<JavaByte>): (r: string)
    ensures |r| == 2 * |digest|
    ensures forall i :: 0 <= i < |r| ==> IsLowerHex(r[i])
  {
    if |digest| == 0 then "" else ByteHex(digest[0]) + HexString(digest[1..])
  }

  /** The byte whose unsigned value is `u`. */
  function FromUnsigned(u: int): (b: JavaByte)
    requires 0 <= u < 256
    ensures Unsigned(b) == u
  {
    if u >= 128 then (u - 256) as JavaByte else u as JavaByte
  }

  /** Decoding of a lowercase Base16 string of even length. */
  function ParseHex(s: string): seq<JavaByte>
    requires |s| % 2 == 0
    requires forall i :: 0 <= i < |s| ==> IsLowerHex(s[i])
  {
    if |s| == 0 then []
    else [FromUnsigned(HexValue(s[0]) * 16 + HexValue(s[1]))] + ParseHex(s[2..])
  }

  lemma UnsignedInjective(a: JavaByte, b: JavaByte)
    requires Unsigned(a) == Unsigned(b)
    ensures a == b
  {
  }

  /** Decoding the rendering gives the digest back. */
  lemma {:induction false} ParseHexString(digest: seq<JavaByte>)
    ensures ParseHex(HexString(digest)) == digest
  {
    if |digest| > 0 {
      var s := HexString(digest);
      assert s == ByteHex(digest[0]) + HexString(digest[1..]);
      assert s[2..] == HexString(digest[1..]);
      ParseHexString(digest[1..]);
      var b := FromUnsigned(HexValue(s[0]) * 16 + HexValue(s[1]));
      UnsignedInjective(b, digest[0]);
    }
  }

  /** Distinct digests render as distinct strings. */
  lemma HexStringInjective(a: seq<JavaByte>, b: seq<JavaByte>)
    requires HexString(a) == HexString(b)
    ensures a == b
  {
    ParseHexString(a);
    ParseHexString(b);
  }

  /** `FileUtils.calculateHash`: SHA-256 of the file's bytes, rendered in
      lowercase hex. Reading the bytes may fail; the digest is a parameter. */
  function CalculateHash(bytes: Result<seq<JavaByte>>, sha256: seq<JavaByte> -> seq<JavaByte>): (r: Result<string>)
    ensures bytes.Err? <==> r.Err?
    ensures r.Err? ==> r.failure == Runtime("Failed to calculate hash")
    ensures r.Ok? ==> |r.value| == 2 * |sha256(bytes.value)|
    ensures r.Ok? ==> forall i :: 0 <= i < |r.value| ==> IsLowerHex(r.value[i])
    ensures r.Ok? ==> ParseHex(r.value) == sha256(bytes.value)
  {
    match bytes
    case Err(_) => Err(Runtime("Failed to calculate hash"))
    case Ok(b) =>
      ParseHexString(sha256(b));
      Ok(HexString(sha256(b)))
  }
}
