/** The APOD record the NASA service returns, and the text form the app stores it under in the
    key/value cache. The model writes each field as its decimal length, a colon and its text, in
    place of `JSON.stringify`; `Decode` plays `JSON.parse`, and the round trip between them is
    proved rather than assumed. */
module ApodData {
  import opened Wrappers
  import opened Decimal

  /** One Astronomy Picture of the Day: the fields the app reads from the service's JSON object
      (`date`, `title`, `explanation`, `media_type`, `url` and the optional `hdurl`, `copyright`
      and `thumbnail_url`). */
  datatype Apod = Apod(
    date: string,
    title: string,
    explanation: string,
    mediaType: string,
    url: string,
    hdurl: Option<string>,
    copyright: Option<string>,
    thumbnailUrl: Option<string>)

  function Field(s: string): string {
    NatToString(|s|) + ":" + s
  }

  /** The fields one after the other. */
  function Fields(fs: seq<string>): (s: string)
    ensures fs != [] ==> s != ""
  {
    if fs == [] then "" else Field(fs[0]) + Fields(fs[1..])
  }

  /** An optional field as a tagged text: "-" when absent, "+" and the text when present. */
  function Tagged(o: Option<string>): string {
    match o
    case None => "-"
    case Some(s) => "+" + s
  }

  function Untagged(t: string): Option<Option<string>> {
    if t == "-" then Some(None)
    else if t != [] && t[0] == '+' then Some(Some(t[1..]))
    else None
  }

  function FieldsOf(a: Apod): seq<string> {
    [a.date, a.title, a.explanation, a.mediaType, a.url, Tagged(a.hdurl), Tagged(a.copyright), Tagged(a.thumbnailUrl)]
  }

  /** The stored text of a record. */
  function Encode(a: Apod): (s: string)
    ensures s != ""
  {
    Fields(FieldsOf(a))
  }

  /** The number of leading decimal digits of `t`. */
  function DigitRun(t: string): (k: nat)
    ensures k <= |t| && AllDigits(t[..k]) && (k < |t| ==> !IsDigit(t[k]))
  {
    if t == [] || !IsDigit(t[0]) then 0
    else
      var k := 1 + DigitRun(t[1..]);
      assert forall i :: 1 <= i < k ==> t[..k][i] == t[1..][..k - 1][i - 1];
      k
  }

  /** Reads one length-prefixed field off the front of `t`, giving the field and what follows. */
  function ReadField(t: string): Option<(string, string)> {
    var k := DigitRun(t);
    if k == 0 || k == |t| || t[k] != ':' || t[..k] != NatToString(ParseNat(t[..k])) then None
    else
      var n := ParseNat(t[..k]);
      var body := t[k + 1..];
      if n <= |body| then Some((body[..n], body[n..])) else None
  }

  /** Reads `n` fields off the front of `t`. */
  function ReadFields(t: string, n: nat): (r: Option<(seq<string>, string)>)
    ensures r.Some? ==> |r.value.0| == n
  {
    if n == 0 then Some(([], t))
    else
      match ReadField(t)
      case None => None
      case Some((f, rest)) =>
        match ReadFields(rest, n - 1)
        case None => None
        case Some((fs, tail)) => Some(([f] + fs, tail))
  }

  /** The record stored as `s`, or `None` when `s` is not the text of a record. */
  function Decode(s: string): Option<Apod> {
    match ReadFields(s, 8)
    case Some((fs, "")) =>
      var hdurl, copyright, thumbnailUrl := Untagged(fs[5]), Untagged(fs[6]), Untagged(fs[7]);
      if hdurl.Some? && copyright.Some? && thumbnailUrl.Some? then
        Some(Apod(fs[0], fs[1], fs[2], fs[3], fs[4], hdurl.value, copyright.value, thumbnailUrl.value))
      else None
    case _ => None
  }

  lemma {:induction false} DigitRunOfNumber(d: string, rest: string)
    requires AllDigits(d) && rest != [] && !IsDigit(rest[0])
    ensures DigitRun(d + rest) == |d|
  {
    if d != [] {
      assert (d + rest)[1..] == d[1..] + rest;
      DigitRunOfNumber(d[1..], rest);
    } else {
      assert d + rest == rest;
    }
  }

  lemma ReadFieldOf(s: string, rest: string)
    ensures ReadField(Field(s) + rest) == Some((s, rest))
  {
    var digits := NatToString(|s|);
    var t := Field(s) + rest;
    assert t == digits + (":" + s + rest);
    DigitRunOfNumber(digits, ":" + s + rest);
    assert t[..|digits|] == digits;
    ParseNatToString(|s|);
    assert t[|digits| + 1..] == s + rest;
    assert (s + rest)[..|s|] == s && (s + rest)[|s|..] == rest;
  }

  lemma {:induction false} ReadFieldsOf(fs: seq<string>, rest: string)
    ensures ReadFields(Fields(fs) + rest, |fs|) == Some((fs, rest))
  {
    if fs != [] {
      var t, x := Fields(fs) + rest, Fields(fs[1..]) + rest;
      assert t == Field(fs[0]) + x;
      ReadFieldOf(fs[0], x);
      ReadFieldsOf(fs[1..], rest);
      assert [fs[0]] + fs[1..] == fs;
    } else {
      assert Fields(fs) + rest == rest;
    }
  }

  /** A field read off the front of `t` is written there in its encoding. */
  lemma FieldOfRead(t: string)
    requires ReadField(t).Some?
    ensures t == Field(ReadField(t).value.0) + ReadField(t).value.1
  {
    var k := DigitRun(t);
    var n := ParseNat(t[..k]);
    var body := t[k + 1..];
    assert t == t[..k] + ":" + body;
    assert body == body[..n] + body[n..];
  }

  /** Fields read off the front of `t` are written there in their encoding. */
  lemma {:induction false} ReadFieldsRead(t: string, n: nat)
    ensures ReadFields(t, n).Some? ==> t == Fields(ReadFields(t, n).value.0) + ReadFields(t, n).value.1
  {
    if n > 0 && ReadFields(t, n).Some? {
      var (f, rest) := ReadField(t).value;
      FieldOfRead(t);
      ReadFieldsRead(rest, n - 1);
      var (fs, tail) := ReadFields(rest, n - 1).value;
      assert ReadFields(t, n).value == ([f] + fs, tail);
      assert ([f] + fs)[1..] == fs;
    } else if n == 0 {
      assert Fields([]) + t == t;
    }
  }

  lemma TaggedUntagged(t: string)
    requires Untagged(t).Some?
    ensures Tagged(Untagged(t).value) == t
  {
    if t != "-" {
      assert t == "+" + t[1..];
    }
  }

  lemma UntaggedTagged(o: Option<string>)
    ensures Untagged(Tagged(o)) == Some(o)
  {
    match o
    case None =>
    case Some(s) => assert ("+" + s)[1..] == s;
  }

  /** Reading back a stored record gives the record: `JSON.parse(JSON.stringify(a))` is `a`. */
  lemma DecodeEncode(a: Apod)
    ensures Decode(Encode(a)) == Some(a)
  {
    var fs := FieldsOf(a);
    var s := Encode(a);
    assert s + "" == s;
    ReadFieldsOf(fs, "");
    assert ReadFields(s, 8) == Some((fs, ""));
    UntaggedTagged(a.hdurl);
    UntaggedTagged(a.copyright);
    UntaggedTagged(a.thumbnailUrl);
  }

  /** Whatever `Decode` accepts is the encoding of what it returns: no other text is read as a
      record. */
  lemma DecodeOnlyEncodings(s: string)
    requires Decode(s).Some?
    ensures Encode(Decode(s).value) == s
  {
    ReadFieldsRead(s, 8);
    var fs := ReadFields(s, 8).value.0;
    assert ReadFields(s, 8).value.1 == "";
    assert s == Fields(fs) + "";
    RecordOfFields(fs);
  }

  /** Eight fields whose last three are tagged texts are the fields of the record built from them. */
  lemma RecordOfFields(fs: seq<string>)
    requires |fs| == 8 && Untagged(fs[5]).Some? && Untagged(fs[6]).Some? && Untagged(fs[7]).Some?
    ensures FieldsOf(Apod(fs[0], fs[1], fs[2], fs[3], fs[4],
                          Untagged(fs[5]).value, Untagged(fs[6]).value, Untagged(fs[7]).value)) == fs
  {
    TaggedUntagged(fs[5]);
    TaggedUntagged(fs[6]);
    TaggedUntagged(fs[7]);
  }

  /** A text decodes to a record exactly when it is that record's encoding. */
  lemma DecodeExactlyEncodings(s: string, a: Apod)
    ensures Decode(s) == Some(a) <==> Encode(a) == s
  {
    DecodeEncode(a);
    if Decode(s).Some? {
      DecodeOnlyEncodings(s);
    }
  }

  /** Different records are stored as different texts. */
  lemma EncodeInjective(a: Apod, b: Apod)
    requires Encode(a) == Encode(b)
    ensures a == b
  {
    DecodeEncode(a);
    DecodeEncode(b);
  }
}
