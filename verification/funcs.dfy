/**
 * The helpers that `funcMap` (template/template.go) binds into the template
 * syntax and whose behaviour can be stated here: `unix`, `time_unix`,
 * `base64`, `base64decode`, the string tests, `port` and the `sha*` digests.
 */
module Funcs {
  import opened Wrappers
  import opened Text
  import opened Bytes
  import Decimal
  import Base64Codec
  import Hex

  /** A `time.Time` reduced to what `unix` and `time_unix` use: whole seconds since the Unix epoch. */
  datatype Time = Time(unixSeconds: Decimal.Int64)

  /** `unix`: the epoch seconds of `t` in decimal. */
  function Unix(t: Time): (r: string)
    ensures Decimal.IsCanonical(r)
    ensures Decimal.ParseInt64(r) == Success(t.unixSeconds)
  {
    Decimal.ParseFormat(t.unixSeconds);
    Decimal.FormatInt(t.unixSeconds)
  }

  /**
   * `time_unix`: accepts exactly the decimal text (optional sign, at least one
   * digit) whose value fits in 64 bits, and reads it as that many seconds;
   * anything else gives the parse error for the text.
   */
  function TimeUnix(v: string): (r: Result<Time, Decimal.NumError>)
    ensures r.Success? <==> Decimal.IsInt64Text(v)
    ensures r.Success? ==> r.value.unixSeconds == Decimal.TextValue(v)
    ensures r.Failure? ==> r.error == Decimal.NumError(v)
  {
    match Decimal.ParseInt64(v)
    case Failure(e) => Failure(e)
    case Success(n) => Success(Time(n))
  }

  /** Every time survives `unix` then `time_unix`. */
  lemma TimeUnixOfUnix(t: Time)
    ensures TimeUnix(Unix(t)) == Success(t)
  {
  }

  /** Canonical decimal epoch seconds survive `time_unix` then `unix`. */
  lemma UnixOfTimeUnix(s: string)
    requires Decimal.IsCanonical(s) && TimeUnix(s).Success?
    ensures Unix(TimeUnix(s).value) == s
  {
    Decimal.FormatParse(s);
  }

  /** `base64`: the bytes of `v` in standard base64 with padding. */
  function Base64(v: seq<byte>): (r: string)
    ensures |r| % 4 == 0
    ensures forall i :: 0 <= i < |r| ==> Base64Codec.IsAlphabetChar(r[i]) || r[i] == Base64Codec.Pad
  {
    Base64Codec.Encode(v)
  }

  /** `base64decode`: the decoded bytes, or `""` together with the error for malformed input. */
  function Base64Decode(v: string): (r: (seq<byte>, Option<Base64Codec.CorruptInput>))
    ensures r.1.Some? ==> r.0 == []
    ensures r.1.None? <==> Base64Codec.Decode(v).Success?
    ensures r.1.None? ==> r.0 == Base64Codec.Decode(v).value
  {
    match Base64Codec.Decode(v)
    case Failure(e) => ([], Some(e))
    case Success(bytes) => (bytes, None)
  }

  /** `base64decode` undoes `base64` for every string. */
  lemma Base64RoundTrip(v: seq<byte>)
    ensures Base64Decode(Base64(v)) == (v, None)
  {
    Base64Codec.DecodeEncode(v);
  }

  /** `base64decode` fails on input with a character outside the alphabet, `=` and newlines. */
  lemma Base64DecodeRejects(v: string, c: char)
    requires c in v && !Base64Codec.IsAlphabetChar(c) && c != Base64Codec.Pad && !Base64Codec.IsNewline(c)
    ensures Base64Decode(v) == ([], Some(Base64Codec.CorruptInput))
  {
    Base64Codec.DecodeRejectsForeign(v, c);
    assert Base64Codec.Decode(v).error.CorruptInput?;
  }

  /** `has_prefix prefix v`: the needle comes first. */
  function HasPrefix(prefix: string, v: string): (r: bool)
    ensures r <==> |prefix| <= |v| && v[..|prefix|] == prefix
  {
    prefix <= v
  }

  /** `has_suffix suffix v`: the needle comes first. */
  function HasSuffix(suffix: string, v: string): (r: bool)
    ensures r <==> |suffix| <= |v| && forall i :: 0 <= i < |suffix| ==> v[|v| - |suffix| + i] == suffix[i]
  {
    |suffix| <= |v| && v[|v| - |suffix|..] == suffix
  }

  /** `contains v substr`: the haystack comes first. */
  function Contains(v: string, substr: string): (r: bool)
    ensures r <==> exists i: nat :: OccursAt(v, substr, i)
  {
    Text.Contains(v, substr)
  }

  /** The prefix and suffix tests hold of the pieces a string is glued from, and imply `contains`. */
  lemma StringTests(a: string, b: string)
    ensures HasPrefix(a, a + b) && HasSuffix(b, a + b)
    ensures Contains(a + b, a) && Contains(a + b, b)
  {
    var v := a + b;
    assert v[..|a|] == a && v[|v| - |b|..] == b;
    assert OccursAt(v, a, 0);
    assert OccursAt(v, b, |a|);
  }

  /** The argument order matters: the needle of `has_prefix` is its first argument. */
  lemma StringTestsArgumentOrder()
    ensures HasPrefix("temp", "template") && !HasPrefix("template", "temp")
    ensures HasSuffix("late", "template") && !HasSuffix("template", "late")
    ensures Contains("template", "mpl") && !Contains("mpl", "template")
  {
    StringTests("temp", "late");
    assert OccursAt("template", "mpl", 2);
  }

  /** The ports `port` falls back to, by lower-cased scheme. */
  const DefaultPorts: map<string, string> :=
    map["http" := "80", "https" := "443", "ssh" := "22", "ftp" := "21", "sftp" := "22"]

  /**
   * `port`, over the URL's scheme and the port written in its host (empty when
   * there is none): the explicit port when there is one, else the default for
   * the scheme, else the empty string.
   */
  function Port(scheme: string, explicitPort: string): (r: string)
    ensures |explicitPort| > 0 ==> r == explicitPort
    ensures |explicitPort| == 0 && LowerAscii(scheme) in DefaultPorts ==> r == DefaultPorts[LowerAscii(scheme)]
    ensures |explicitPort| == 0 && LowerAscii(scheme) !in DefaultPorts ==> r == ""
  {
    if |explicitPort| > 0 then explicitPort
    else
      var s := LowerAscii(scheme);
      if s == "http" then "80"
      else if s == "https" then "443"
      else if s == "ssh" then "22"
      else if s == "ftp" then "21"
      else if s == "sftp" then "22"
      else ""
  }

  /** `port` does not depend on the case of the scheme. */
  lemma PortIgnoresCase(a: string, b: string, explicitPort: string)
    requires EqualFoldAscii(a, b)
    ensures Port(a, explicitPort) == Port(b, explicitPort)
  {
    LowerAsciiEqualFold(a, b);
  }

  lemma PortExamples()
    ensures Port("HTTPS", "") == "443" && Port("Ssh", "") == "22"
    ensures Port("http", "8080") == "8080" && Port("gopher", "") == ""
  {
    assert LowerAscii("HTTPS") == "https";
    assert LowerAscii("Ssh") == "ssh";
    assert LowerAscii("gopher") == "gopher";
  }

  /** SHA-1, SHA-256 and SHA-512 sums: 20, 32 and 64 bytes. The hash functions themselves are not modelled. */
  type Sha1Sum = s: seq<byte> | |s| == 20 witness seq(20, i => 0)
  type Sha256Sum = s: seq<byte> | |s| == 32 witness seq(32, i => 0)
  type Sha512Sum = s: seq<byte> | |s| == 64 witness seq(64, i => 0)

  /** `sha1`: the sum in lower-case hex, 40 characters. */
  function Sha1(sum: Sha1Sum): (r: string)
    ensures |r| == 40 && forall i :: 0 <= i < |r| ==> Hex.IsLowerHexDigit(r[i])
    ensures Hex.Decode(r) == Some(sum)
  {
    Hex.DecodeEncode(sum);
    Hex.Encode(sum)
  }

  /** `sha256`: the sum in lower-case hex, 64 characters. */
  function Sha256(sum: Sha256Sum): (r: string)
    ensures |r| == 64 && forall i :: 0 <= i < |r| ==> Hex.IsLowerHexDigit(r[i])
    ensures Hex.Decode(r) == Some(sum)
  {
    Hex.DecodeEncode(sum);
    Hex.Encode(sum)
  }

  /** `sha512`: the sum in lower-case hex, 128 characters. */
  function Sha512(sum: Sha512Sum): (r: string)
    ensures |r| == 128 && forall i :: 0 <= i < |r| ==> Hex.IsLowerHexDigit(r[i])
    ensures Hex.Decode(r) == Some(sum)
  {
    Hex.DecodeEncode(sum);
    Hex.Encode(sum)
  }
}
