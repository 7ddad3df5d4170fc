/**
 File pointers `bucket:/key` (types/file.go): printing, parsing and the shapes a file value is
 read from.
 */
module FilePointer {
  import opened Wrappers
  import opened Strings

  datatype FileValue = FileValue(bucket: string, key: string)

  function NormalizeKey(k: string): string {
    if k == "" || k[0] == '/' then k else "/" + k
  }

  function Normalized(f: FileValue): FileValue {
    FileValue(f.bucket, NormalizeKey(f.key))
  }

  /** `String`. */
  function ToText(f: FileValue): string {
    f.bucket + ":" + NormalizeKey(f.key)
  }

  /** `strings.Index(s, ":")`, or the length when there is none. */
  function ColonIndex(s: string): (i: nat)
    ensures i <= |s| && ':' !in s[..i] && (i < |s| ==> s[i] == ':')
  {
    if s == [] || s[0] == ':' then 0 else 1 + ColonIndex(s[1..])
  }

  /** Parsing gives a file, an error for a text without colon, or an out-of-range slice. */
  datatype Parsed = File(f: FileValue) | Invalid | OutOfRange

  predicate Wrapped(s: string) {
    "f\"" <= s && s[|s| - 1] == '"'
  }

  function Split(s: string): Parsed {
    var i := ColonIndex(s);
    if i == |s| then Invalid else File(FileValue(s[..i], s[i + 1..]))
  }

  /** `parseString`. */
  function Parse(s: string): Parsed {
    var t := TrimSpace(s);
    if Wrapped(t) then
      if |t| == 2 then OutOfRange else Split(t[2..|t| - 1])
    else Split(t)
  }

  /** What a decoder hands over: text, bytes, or something printed with `%v`. */
  datatype Item = Str(s: string) | Bytes(b: string) | Printed(text: string)

  function ToStr(x: Item): string {
    match x
    case Str(s) => s
    case Bytes(b) => b
    case Printed(t) => t
  }

  /** `fromArray`. */
  function FromArray(xs: seq<Item>): Parsed {
    if |xs| != 2 then Invalid else File(FileValue(ToStr(xs[0]), ToStr(xs[1])))
  }

  /** The shapes of a decoded JSON value that are told apart. */
  datatype Json = JNull | JString(s: string) | JStrings(xs: seq<string>) | JObject(bucket: Option<Item>, key: Option<Item>, content: Option<seq<Item>>) | JOther

  /** `UnmarshalJSON` after decoding; None leaves the file as it is. */
  function FromJson(j: Json): Option<Parsed> {
    match j
    case JNull => None
    case JString(s) => Some(Parse(s))
    case JStrings(xs) => Some(if |xs| == 2 then File(FileValue(xs[0], xs[1])) else Invalid)
    case JObject(b, k, c) =>
      if b.Some? then Some(File(FileValue(ToStr(b.value), if k.Some? then ToStr(k.value) else "<nil>")))
      else if c.Some? then Some(FromArray(c.value))
      else Some(Invalid)
    case JOther => Some(Invalid)
  }

  /** A file variable, as the receiver of the reading methods. */
  class Receiver {
    var bucket: string
    var key: string

    constructor (f: FileValue)
      ensures Current() == f
    {
      bucket, key := f.bucket, f.key;
    }

    function Current(): FileValue
      reads this
    {
      FileValue(bucket, key)
    }

    /** Anything but a file leaves the receiver as it was; `panics` marks the out-of-range slice. */
    method ParseString(text: string) returns (ok: bool, panics: bool)
      modifies this
      ensures ok <==> Parse(text).File?
      ensures panics <==> Parse(text).OutOfRange?
      ensures Current() == if ok then Parse(text).f else old(Current())
    {
      ok, panics := false, false;
      var s := TrimSpace(text);
      if "f\"" <= s && s[|s| - 1] == '"' {
        if |s| - 1 < 2 {
          panics := true;
          return;
        }
        s := s[2..|s| - 1];
      }
      var i := ColonIndex(s);
      if i == |s| {
        return;
      }
      bucket, key := s[..i], s[i + 1..];
      ok := true;
    }

    method ReadArray(xs: seq<Item>) returns (ok: bool)
      modifies this
      ensures ok <==> FromArray(xs).File?
      ensures Current() == if ok then FromArray(xs).f else old(Current())
    {
      ok := |xs| == 2;
      if ok {
        bucket := ToStr(xs[0]);
        key := ToStr(xs[1]);
      }
    }
  }

  // ---------------------------------------------------------------- main results

  lemma NormalizeIdempotent(k: string)
    ensures NormalizeKey(NormalizeKey(k)) == NormalizeKey(k)
    ensures NormalizeKey(k) == k <==> k == "" || k[0] == '/'
  {
  }

  lemma SplitText(b: string, k: string)
    ensures Split(b + ":" + k) == File(FileValue(b, k)) <==> ':' !in b
  {
    var s, i := b + ":" + k, ColonIndex(b);
    ColonBehind(b, k);
    assert s[i + 1..] == (b[i..] + ":" + k)[1..];
    assert s[..i] == b[..i];
  }

  lemma {:induction false} ColonBehind(b: string, k: string)
    ensures ColonIndex(b + ":" + k) == ColonIndex(b)
    ensures ColonIndex(b) == |b| <==> ':' !in b
  {
    if b == [] {
      assert b + ":" + k == ":" + k;
    } else {
      assert (b + ":" + k)[1..] == b[1..] + ":" + k;
      ColonBehind(b[1..], k);
      assert b == [b[0]] + b[1..];
    }
  }

  /** A successful parse accounts for the text it was made from. */
  lemma SplitLength(s: string)
    ensures Split(s).File? ==> |Split(s).f.bucket| + 1 + |Split(s).f.key| == |s|
  {
  }

  /**
   Printing and parsing give back the file with its key normalised, exactly when the bucket has
   no colon and the printed text has no outer white space and is not itself a quoted literal.
   */
  lemma PrintParseExact(f: FileValue)
    ensures Parse(ToText(f)) == File(Normalized(f)) <==>
            ':' !in f.bucket && TrimSpace(ToText(f)) == ToText(f) && !Wrapped(ToText(f))
  {
    var s, t := ToText(f), TrimSpace(ToText(f));
    SplitText(f.bucket, NormalizeKey(f.key));
    TrimShortens(s);
    TrimShortens(TrimLeft(s));
    if Wrapped(t) && |t| > 2 {
      SplitLength(t[2..|t| - 1]);
    }
    SplitLength(t);
  }

  lemma TrimQuoted(s: string)
    requires s != [] && !IsSpace(s[0]) && !IsSpace(s[|s| - 1])
    ensures TrimSpace(s) == s
  {
  }

  /** The quoted literal of a file parses to the file with its key normalised, exactly when the
      bucket has no colon: inside the quotes nothing is trimmed. */
  lemma LiteralParseExact(f: FileValue)
    ensures Parse("f\"" + ToText(f) + "\"") == File(Normalized(f)) <==> ':' !in f.bucket
  {
    var s := "f\"" + ToText(f) + "\"";
    assert s[0] == 'f' && s[|s| - 1] == '"' && s[..2] == "f\"";
    TrimQuoted(s);
    assert s[2..|s| - 1] == ToText(f);
    SplitText(f.bucket, NormalizeKey(f.key));
  }

  /** The text `f"` alone, with any white space around it, is sliced out of range; no other text is. */
  lemma OutOfRangeExact(s: string)
    ensures Parse(s).OutOfRange? <==> TrimSpace(s) == "f\""
  {
    var t := TrimSpace(s);
    assert |t| == 2 && Wrapped(t) ==> t == "f\"";
  }

  /** All shapes a file is written in are read as the same file: the array and the tag content
      keep the key as it is, and the texts agree when the key is normalised already. */
  lemma ShapesAgree(f: FileValue)
    requires ':' !in f.bucket && NormalizeKey(f.key) == f.key
    requires TrimSpace(ToText(f)) == ToText(f) && !Wrapped(ToText(f))
    ensures FromJson(JString(ToText(f))) == Some(File(f))
    ensures FromJson(JString("f\"" + ToText(f) + "\"")) == Some(File(f))
    ensures FromJson(JStrings([f.bucket, f.key])) == Some(File(f))
    ensures FromJson(JObject(Some(Str(f.bucket)), Some(Str(f.key)), None)) == Some(File(f))
    ensures FromJson(JObject(None, None, Some([Str(f.bucket), Bytes(f.key)]))) == Some(File(f))
  {
    PrintParseExact(f);
    LiteralParseExact(f);
  }

  /**
   What else a decoded JSON value may be: an array of strings is a file exactly when it has two
   elements; an object is one exactly when it has a bucket, or a content of two elements. An object
   with a bucket and no key is read with the key `<nil>`, and no key is normalised on the way.
   */
  lemma JsonExact(j: Json)
    ensures FromJson(j) == None <==> j.JNull?
    ensures j.JStrings? ==> FromJson(j) == Some(if |j.xs| == 2 then File(FileValue(j.xs[0], j.xs[1])) else Invalid)
    ensures j.JObject? ==>
              (FromJson(j).value.File? <==> j.bucket.Some? || (j.content.Some? && |j.content.value| == 2))
              && !FromJson(j).value.OutOfRange?
    ensures j.JObject? && j.bucket.Some? && j.key == None ==> FromJson(j) == Some(File(FileValue(ToStr(j.bucket.value), "<nil>")))
    ensures j.JObject? && j.bucket.Some? && j.key.Some? ==>
              FromJson(j) == Some(File(FileValue(ToStr(j.bucket.value), ToStr(j.key.value))))
    ensures j.JOther? ==> FromJson(j) == Some(Invalid)
  {
  }
}
