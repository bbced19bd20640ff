/** The pure part of the log reader in python/autometrics.py: a decoded JSON
    record becomes one line of metric text (or is discarded), under alias
    keys, tag filtering and four running counters; `send_metrics` reports
    and resets the counters; `cleanUpTagValue` scrubs tag values.

    Decoding the line is not modelled: `handle_metric` receives the decoded
    value, or `None` when `json.loads` raised. A decoded object lists its
    items in the order the dictionary iterates them, since that order
    decides which alias wins and in which order tags are written. Python's
    `str()` of a float, list or object is a parameter `render`; strings,
    integers, booleans and null are rendered concretely. Decoded strings are
    unicode (Python 2), so `str()` of one raises unless it is ASCII.
    `time.time()` is the parameter `now`. */
module LogLine {
  import opened Outcomes

  datatype JValue =
    | JNull
    | JBool(b: bool)
    | JInt(i: int)
    | JFloat(f: real)
    | JStr(s: string)
    | JList(items: seq<JValue>)
    | JObj(entries: seq<(string, JValue)>)

  /* ---------- Decimal text ---------- */

  function DigitChar(d: nat): (c: char)
    requires d < 10
    ensures '0' <= c <= '9' && c as int - '0' as int == d
  {
    ('0' as int + d) as char
  }

  predicate IsDigit(c: char)
  {
    '0' <= c <= '9'
  }

  predicate AllDigits(s: string)
  {
    forall i :: 0 <= i < |s| ==> IsDigit(s[i])
  }

  /** The decimal digits of `n`, most significant first, without leading
      zeros. */
  function NatDigits(n: nat): (s: string)
    ensures |s| > 0 && AllDigits(s)
    decreases n
  {
    if n < 10 then [DigitChar(n)] else NatDigits(n / 10) + [DigitChar(n % 10)]
  }

  /** Python `str(i)` for an integer. */
  function Decimal(i: int): string
  {
    if i < 0 then "-" + NatDigits(-i) else NatDigits(i)
  }

  /** The number a string of digits spells. */
  function DigitsValue(s: string): (n: nat)
    requires AllDigits(s)
    decreases |s|
  {
    if |s| == 0 then 0
    else DigitsValue(s[..|s| - 1]) * 10 + (s[|s| - 1] as int - '0' as int)
  }

  /** The digits of `n` spell `n`. */
  lemma {:induction false} DigitsRoundTrip(n: nat)
    ensures DigitsValue(NatDigits(n)) == n
    decreases n
  {
    if n >= 10 {
      var s := NatDigits(n);
      DigitsRoundTrip(n / 10);
      assert s[..|s| - 1] == NatDigits(n / 10);
    }
  }

  /** The whitespace Python 2 `int()` skips in a unicode numeral, below
      U+0100: C's `isspace` set (tab to carriage return, and space), plus
      U+001C to U+001F, U+0085 and U+00A0, which the conversion of the
      numeral to ASCII first turns into spaces. */
  predicate IsSpace(c: char)
  {
    (9 <= c as int <= 13) || (28 <= c as int <= 32) || c as int == 0x85 || c as int == 0xA0
  }

  /** `s` without its leading whitespace. */
  function StripLeft(s: string): (r: string)
    ensures |r| <= |s|
    ensures |r| > 0 ==> !IsSpace(r[0])
  {
    if |s| > 0 && IsSpace(s[0]) then StripLeft(s[1..]) else s
  }

  /** `s` without its trailing whitespace. */
  function StripRight(s: string): (r: string)
    ensures |r| <= |s|
    ensures |r| > 0 ==> !IsSpace(r[|r| - 1])
  {
    if |s| > 0 && IsSpace(s[|s| - 1]) then StripRight(s[..|s| - 1]) else s
  }

  predicate NoDigit(s: string)
  {
    forall i :: 0 <= i < |s| ==> !IsDigit(s[i])
  }

  /** Stripping on the left adds no digit. */
  lemma {:induction false} NoDigitLeft(s: string)
    requires NoDigit(s)
    ensures NoDigit(StripLeft(s))
    decreases |s|
  {
    if |s| > 0 && IsSpace(s[0]) {
      assert forall i :: 0 <= i < |s[1..]| ==> s[1..][i] == s[i + 1];
      NoDigitLeft(s[1..]);
    }
  }

  /** Stripping on the right adds no digit. */
  lemma {:induction false} NoDigitRight(s: string)
    requires NoDigit(s)
    ensures NoDigit(StripRight(s))
    decreases |s|
  {
    if |s| > 0 && IsSpace(s[|s| - 1]) {
      assert forall i :: 0 <= i < |s| - 1 ==> s[..|s| - 1][i] == s[i];
      NoDigitRight(s[..|s| - 1]);
    }
  }

  /** Python 2 `int(s)` for a unicode string, base 10: whitespace around
      the numeral, an optional sign, whitespace again, then at least one
      digit. Text without any digit never parses, and plain digits parse to
      the number they spell. */
  function ParseInt(s: string): (r: Option<int>)
    ensures NoDigit(s) ==> r.None?
    ensures |s| > 0 && AllDigits(s) ==> r == Some(DigitsValue(s) as int)
  {
    var t := StripRight(StripLeft(s));
    var neg := |t| > 0 && t[0] == '-';
    var u := if |t| > 0 && (t[0] == '-' || t[0] == '+') then StripLeft(t[1..]) else t;
    if |u| > 0 && AllDigits(u) then
      NoDigitStrips(s, t, u);
      Some(if neg then -(DigitsValue(u) as int) else DigitsValue(u) as int)
    else None
  }

  /** Text without digits keeps none through the stripping `ParseInt`
      does. */
  lemma NoDigitStrips(s: string, t: string, u: string)
    requires t == StripRight(StripLeft(s))
    requires u == t || (|t| > 0 && u == StripLeft(t[1..]))
    ensures NoDigit(s) ==> NoDigit(u)
  {
    if NoDigit(s) {
      NoDigitLeft(s);
      NoDigitRight(StripLeft(s));
      if u != t {
        assert forall i :: 0 <= i < |t| - 1 ==> t[1..][i] == t[i + 1];
        NoDigitLeft(t[1..]);
      }
    }
  }

  /** A sign may be followed by whitespace. */
  lemma SpacedSignExample(s: string)
    requires s == "- 12"
    ensures ParseInt(s) == Some(-12)
  {
    assert StripLeft(s) == s && StripRight(s) == s;
    var u := s[1..];
    assert u == " 12";
    assert StripLeft(u) == u[1..] && u[1..] == "12";
    assert DigitsValue("12") == 12 by {
      assert "12"[..1] == "1";
    }
  }

  /** The no-break space counts as whitespace in a unicode numeral. */
  lemma NoBreakSpaceExample(s: string)
    requires s == "\U{A0}12"
    ensures ParseInt(s) == Some(12)
  {
    assert StripLeft(s) == s[1..] && s[1..] == "12";
    assert StripRight("12") == "12";
    assert DigitsValue("12") == 12 by {
      assert "12"[..1] == "1";
    }
  }

  /** A lone sign and a digit run broken by a space do not parse. */
  lemma RejectedNumeralExamples(a: string, b: string)
    requires a == "-" && b == "1 2"
    ensures ParseInt(a) == None
    ensures ParseInt(b) == None
  {
    assert StripLeft(a) == a && StripRight(a) == a;
    assert StripLeft(a[1..]) == "";
    assert StripLeft(b) == b && StripRight(b) == b;
    assert !IsDigit(b[1]);
  }

  /** `int(str(i)) == i`: the rendering of an integer parses back to it. */
  lemma ParseDecimal(i: int)
    ensures ParseInt(Decimal(i)) == Some(i)
  {
    var n := if i < 0 then -i else i;
    var digits := NatDigits(n);
    DigitsRoundTrip(n);
    DigitsUnstripped(digits);
    if i < 0 {
      var d := "-" + digits;
      assert d[1..] == digits;
      assert StripLeft(d) == d;
      assert d[|d| - 1] == digits[|digits| - 1];
      assert StripRight(d) == d;
    }
  }

  /** Digits are not whitespace, so stripping leaves a digit run alone. */
  lemma DigitsUnstripped(d: string)
    requires |d| > 0 && AllDigits(d)
    ensures StripLeft(d) == d && StripRight(d) == d
  {
    assert IsDigit(d[0]) && IsDigit(d[|d| - 1]);
  }

  /** Truncation toward zero, as Python's `int()` of a float. */
  function Truncate(r: real): (i: int)
    ensures r >= 0.0 ==> i as real <= r < i as real + 1.0
    ensures r < 0.0 ==> i as real - 1.0 < r <= i as real
  {
    if r >= 0.0 then r.Floor else -((-r).Floor)
  }

  /** Python 2 `int(v)` of a decoded JSON value; `None` where it raises. */
  function PyInt(v: JValue): (r: Option<int>)
    ensures v.JInt? ==> r == Some(v.i)
    ensures v.JNull? || v.JList? || v.JObj? ==> r.None?
  {
    match v
    case JInt(i) => Some(i)
    case JBool(b) => Some(if b then 1 else 0)
    case JFloat(f) => Some(Truncate(f))
    case JStr(s) => ParseInt(s)
    case _ => None
  }

  /** The text `%s` substitutes for `v`: a string as it is, anything else
      as `str()` renders it. */
  function Rendered(v: JValue, render: JValue -> string): string
  {
    match v
    case JStr(s) => s
    case JInt(i) => Decimal(i)
    case JBool(b) => if b then "True" else "False"
    case JNull => "None"
    case _ => render(v)
  }

  predicate Ascii(s: string)
  {
    forall i :: 0 <= i < |s| ==> s[i] as int < 128
  }

  /** A value Python 2 `str()` cannot convert: a unicode string holding a
      character outside ASCII (the default encoding). */
  predicate Unencodable(v: JValue)
  {
    v.JStr? && !Ascii(v.s)
  }

  /** Python 2 `str(v)`: the `%s` text, except that a non-ASCII unicode
      string raises `UnicodeEncodeError`. */
  function PyStr(v: JValue, render: JValue -> string): (r: Result<string, PyError>)
    ensures r.Failure? <==> Unencodable(v)
    ensures r.Failure? ==> r.error == UnicodeEncode(v)
    ensures r.Success? ==> r.value == Rendered(v, render)
  {
    if Unencodable(v) then Failure(UnicodeEncode(v)) else Success(Rendered(v, render))
  }

  /* ---------- cleanUpTagValue ---------- */

  /** `s.replace(c, by)` for a one-character pattern. */
  function ReplaceChar(s: string, c: char, rep: string): (r: string)
    ensures c !in rep ==> c !in r
    ensures forall d :: d in r ==> d in s || d in rep
    ensures |rep| <= 1 ==> |r| <= |s|
    ensures c !in s ==> r == s
  {
    if |s| == 0 then ""
    else (if s[0] == c then rep else [s[0]]) + ReplaceChar(s[1..], c, rep)
  }

  /** `cleanUpTagValue`: `str()`, which can raise, then the five
      replacements. */
  function CleanUpTagValue(v: JValue, render: JValue -> string): (r: Result<string, PyError>)
    ensures r.Failure? <==> Unencodable(v)
    ensures r.Success? ==> r.value == Scrub(Rendered(v, render))
  {
    match PyStr(v, render)
    case Failure(e) => Failure(e)
    case Success(t) => Success(Scrub(t))
  }

  function Scrub(s: string): (r: string)
  {
    var a := ReplaceChar(s, ':', "_");
    var b := ReplaceChar(a, ' ', "_");
    var c := ReplaceChar(b, '<', "");
    var d := ReplaceChar(c, '>', "");
    ReplaceChar(d, '\'', "")
  }

  /** The characters a tag value may not contain. */
  predicate Forbidden(c: char)
  {
    c == ':' || c == ' ' || c == '<' || c == '>' || c == '\''
  }

  /** One character of the scrubbed output: ':' and ' ' become '_', '<',
      '>' and "'" vanish, anything else stays. */
  function ScrubChar(c: char): string
  {
    if c == ':' || c == ' ' then "_"
    else if c == '<' || c == '>' || c == '\'' then ""
    else [c]
  }

  /** The reference definition: each character scrubbed on its own, in
      order. */
  function ScrubRef(s: string): string
  {
    if |s| == 0 then "" else ScrubChar(s[0]) + ScrubRef(s[1..])
  }

  lemma {:induction false} ReplaceCharAppend(s: string, t: string, c: char, rep: string)
    ensures ReplaceChar(s + t, c, rep) == ReplaceChar(s, c, rep) + ReplaceChar(t, c, rep)
    decreases |s|
  {
    if |s| > 0 {
      assert (s + t)[1..] == s[1..] + t;
      ReplaceCharAppend(s[1..], t, c, rep);
    } else {
      assert s + t == t;
    }
  }

  /** Scrubbing distributes over concatenation. */
  lemma ScrubAppend(s: string, t: string)
    ensures Scrub(s + t) == Scrub(s) + Scrub(t)
  {
    var a1, a2 := ReplaceChar(s, ':', "_"), ReplaceChar(t, ':', "_");
    ReplaceCharAppend(s, t, ':', "_");
    var b1, b2 := ReplaceChar(a1, ' ', "_"), ReplaceChar(a2, ' ', "_");
    ReplaceCharAppend(a1, a2, ' ', "_");
    var c1, c2 := ReplaceChar(b1, '<', ""), ReplaceChar(b2, '<', "");
    ReplaceCharAppend(b1, b2, '<', "");
    var d1, d2 := ReplaceChar(c1, '>', ""), ReplaceChar(c2, '>', "");
    ReplaceCharAppend(c1, c2, '>', "");
    ReplaceCharAppend(d1, d2, '\'', "");
  }

  /** Five passes of `replace` equal one pass of `ScrubChar`. */
  lemma {:induction false} ScrubIsOnePass(s: string)
    ensures Scrub(s) == ScrubRef(s)
    decreases |s|
  {
    if |s| > 0 {
      assert s == [s[0]] + s[1..];
      ScrubAppend([s[0]], s[1..]);
      ScrubIsOnePass(s[1..]);
      ScrubSingle(s[0]);
    }
  }

  /** On one character the five passes are `ScrubChar`. */
  lemma ScrubSingle(c: char)
    ensures Scrub([c]) == ScrubChar(c)
  {
    var s := [c];
    assert s[1..] == [];
  }

  /** The scrubbed text contains none of the five forbidden characters and
      is no longer than the input. */
  lemma ScrubClean(s: string)
    ensures forall i :: 0 <= i < |Scrub(s)| ==> !Forbidden(Scrub(s)[i])
    ensures |Scrub(s)| <= |s|
  {
    var r := Scrub(s);
    forall i | 0 <= i < |r|
      ensures !Forbidden(r[i])
    {
      assert r[i] in r;
    }
  }

  /** Text without forbidden characters is left alone, so scrubbing is
      idempotent. */
  lemma ScrubIdempotent(s: string)
    ensures Scrub(Scrub(s)) == Scrub(s)
  {
    ScrubClean(s);
    var r := Scrub(s);
    assert ':' !in r && ' ' !in r && '<' !in r && '>' !in r && '\'' !in r by {
      forall c | c in r
        ensures !Forbidden(c)
      {
        var i :| 0 <= i < |r| && r[i] == c;
      }
    }
  }

  /** Text without forbidden characters comes out unchanged. */
  lemma {:induction false} ScrubKeepsOthers(s: string)
    requires forall i :: 0 <= i < |s| ==> !Forbidden(s[i])
    ensures Scrub(s) == s
    decreases |s|
  {
    ScrubIsOnePass(s);
    ScrubRefIdentity(s);
  }

  lemma {:induction false} ScrubRefIdentity(s: string)
    requires forall i :: 0 <= i < |s| ==> !Forbidden(s[i])
    ensures ScrubRef(s) == s
    decreases |s|
  {
    if |s| > 0 {
      ScrubRefIdentity(s[1..]);
    }
  }

  /* ---------- handle_metric ---------- */

  /** Why `handle_metric` raised. */
  datatype PyError =
    | MalformedJson                   // json.loads
    | NotAnObject(got: JValue)        // .iteritems() on a non-dict
    | TagsNotAnObject(got: JValue)    // .items() on non-dict tags
    | BadTimestamp(got: JValue)       // int() of the timestamp
    | UnicodeEncode(got: JValue)      // str() of a non-ASCII tag value

  /** The four module-level counters. */
  datatype Counters = Counters(linesRead: nat, metricsRead: nat, metricsSent: nat, metricsDiscarded: nat)

  const Zero: Counters := Counters(0, 0, 0, 0)

  /** The fields a record is reduced to. */
  datatype Fields = Fields(name: JValue, mtype: JValue, value: JValue, timestamp: int, tags: string)

  const DefaultTags: string := " env=unknown"
  const CategoryTags: string := " category=metrics"

  function Defaults(now: int): Fields
  {
    Fields(JStr("unidentified"), JStr("counter"), JInt(0), now, DefaultTags)
  }

  const NameKeys: set<string> := {"name", "metric_name"}
  const TypeKeys: set<string> := {"type", "metric_type"}
  const TagKeys: set<string> := {"tags", "metric_tags"}
  const ValueKeys: set<string> := {"value", "metric_value"}
  const TimestampKey: string := "timestamp"

  /** The tags never passed on. */
  const ExcludedTags: set<string> := {"server_type", "dc", "host"}

  /** A tag the loop writes: not null and not excluded. */
  predicate Kept(kv: (string, JValue))
  {
    !kv.1.JNull? && kv.0 !in ExcludedTags
  }

  /** The tag text ` k=v` for each kept tag, in order; the loop raises at
      the first kept value `str()` cannot convert. */
  function TagText(kvs: seq<(string, JValue)>, render: JValue -> string): Result<string, PyError>
    decreases |kvs|
  {
    if |kvs| == 0 then Success("")
    else if !Kept(kvs[0]) then TagText(kvs[1..], render)
    else
      match CleanUpTagValue(kvs[0].1, render)
      case Failure(e) => Failure(e)
      case Success(t) =>
        match TagText(kvs[1..], render)
        case Failure(e) => Failure(e)
        case Success(rest) => Success(" " + kvs[0].0 + "=" + t + rest)
  }

  /** The tags loop raises exactly when some kept tag has a value `str()`
      cannot convert. */
  lemma {:induction false} TagTextRaises(kvs: seq<(string, JValue)>, render: JValue -> string)
    ensures TagText(kvs, render).Failure? <==>
      exists i :: 0 <= i < |kvs| && Kept(kvs[i]) && Unencodable(kvs[i].1)
    decreases |kvs|
  {
    if |kvs| > 0 {
      TagTextRaises(kvs[1..], render);
      if exists i :: 0 <= i < |kvs| && Kept(kvs[i]) && Unencodable(kvs[i].1) {
        var i :| 0 <= i < |kvs| && Kept(kvs[i]) && Unencodable(kvs[i].1);
        if i > 0 {
          assert kvs[1..][i - 1] == kvs[i];
        }
      }
      if exists i :: 0 <= i < |kvs[1..]| && Kept(kvs[1..][i]) && Unencodable(kvs[1..][i].1) {
        var i :| 0 <= i < |kvs[1..]| && Kept(kvs[1..][i]) && Unencodable(kvs[1..][i].1);
        assert kvs[i + 1] == kvs[1..][i];
      }
    }
  }

  /** One item of the record. */
  function Absorb(f: Fields, key: string, v: JValue, render: JValue -> string): Result<Fields, PyError>
  {
    if v.JNull? then Success(f)
    else if key in NameKeys then Success(f.(name := v))
    else if key in TypeKeys then Success(f.(mtype := v))
    else if key in TagKeys then
      match v
      case JObj(kvs) =>
        (match TagText(kvs, render)
         case Failure(e) => Failure(e)
         case Success(t) => Success(f.(tags := CategoryTags + t)))
      case _ => Failure(TagsNotAnObject(v))
    else if key == TimestampKey then
      match PyInt(v)
      case Some(t) => Success(f.(timestamp := t))
      case None => Failure(BadTimestamp(v))
    else if key in ValueKeys then Success(f.(value := v))
    else Success(f)
  }

  /** The items in iteration order; the first raise ends the loop. */
  function AbsorbAll(f: Fields, kvs: seq<(string, JValue)>, render: JValue -> string)
    : Result<Fields, PyError>
    decreases |kvs|
  {
    if |kvs| == 0 then Success(f)
    else
      match Absorb(f, kvs[0].0, kvs[0].1, render)
      case Failure(e) => Failure(e)
      case Success(g) => AbsorbAll(g, kvs[1..], render)
  }

  lemma {:induction false} AbsorbAllSnoc(f: Fields, kvs: seq<(string, JValue)>, e: (string, JValue),
                                         render: JValue -> string)
    ensures AbsorbAll(f, kvs + [e], render) ==
      match AbsorbAll(f, kvs, render)
      case Failure(x) => Failure(x)
      case Success(g) => Absorb(g, e.0, e.1, render)
    decreases |kvs|
  {
    if |kvs| == 0 {
      assert (kvs + [e])[1..] == [];
    } else {
      assert (kvs + [e])[1..] == kvs[1..] + [e];
      match Absorb(f, kvs[0].0, kvs[0].1, render)
      case Failure(_) =>
      case Success(g) => AbsorbAllSnoc(g, kvs[1..], e, render);
    }
  }

  /** The value of the last non-null item whose key is in `keys`. */
  function LastOf(kvs: seq<(string, JValue)>, keys: set<string>): (r: Option<JValue>)
    ensures r.Some? ==> !r.value.JNull?
    decreases |kvs|
  {
    if |kvs| == 0 then None
    else
      var (k, v) := kvs[|kvs| - 1];
      if k in keys && !v.JNull? then Some(v) else LastOf(kvs[..|kvs| - 1], keys)
  }

  /** An item that makes the loop raise: tags that are not an object or
      hold a kept value `str()` cannot convert, or a timestamp `int()`
      rejects. */
  predicate Raises(k: string, v: JValue)
  {
    && !v.JNull?
    && ((k in TagKeys && (!v.JObj? || TagsUnencodable(v.entries)))
        || (k == TimestampKey && PyInt(v).None?))
  }

  predicate TagsUnencodable(kvs: seq<(string, JValue)>)
  {
    exists i :: 0 <= i < |kvs| && Kept(kvs[i]) && Unencodable(kvs[i].1)
  }

  /** `x` if present, else `d`. */
  function Or<T>(x: Option<T>, d: T): T
  {
    if x.Some? then x.value else d
  }

  /** The loop in terms of the record alone: it raises exactly when some
      item raises; otherwise name, type and value are the last non-null
      alias seen (or the starting one), the timestamp is the last one
      converted, and the tags come from the last tags object. */
  lemma AbsorbAllMeaning(f: Fields, kvs: seq<(string, JValue)>, render: JValue -> string)
    ensures AbsorbAll(f, kvs, render).Failure? <==> exists i :: 0 <= i < |kvs| && Raises(kvs[i].0, kvs[i].1)
    ensures AbsorbAll(f, kvs, render).Success? ==> AbsorbedFields(f, kvs, render, AbsorbAll(f, kvs, render).value)
  {
    AbsorbAllRaises(f, kvs, render);
    if AbsorbAll(f, kvs, render).Success? {
      AbsorbAllFields(f, kvs, render);
    }
  }

  /** What the record leaves in the fields when nothing raises. */
  predicate AbsorbedFields(f: Fields, kvs: seq<(string, JValue)>, render: JValue -> string, g: Fields)
  {
    && g.name == Or(LastOf(kvs, NameKeys), f.name)
    && g.mtype == Or(LastOf(kvs, TypeKeys), f.mtype)
    && g.value == Or(LastOf(kvs, ValueKeys), f.value)
    && (LastOf(kvs, {TimestampKey}).None? ==> g.timestamp == f.timestamp)
    && (LastOf(kvs, {TimestampKey}).Some? ==> Some(g.timestamp) == PyInt(LastOf(kvs, {TimestampKey}).value))
    && (LastOf(kvs, TagKeys).None? ==> g.tags == f.tags)
    && (LastOf(kvs, TagKeys).Some? ==>
          LastOf(kvs, TagKeys).value.JObj?
          && TagText(LastOf(kvs, TagKeys).value.entries, render).Success?
          && g.tags == CategoryTags + TagText(LastOf(kvs, TagKeys).value.entries, render).value)
  }

  lemma {:induction false} AbsorbAllRaises(f: Fields, kvs: seq<(string, JValue)>, render: JValue -> string)
    ensures AbsorbAll(f, kvs, render).Failure? <==> exists i :: 0 <= i < |kvs| && Raises(kvs[i].0, kvs[i].1)
    decreases |kvs|
  {
    if |kvs| > 0 {
      var init, e := kvs[..|kvs| - 1], kvs[|kvs| - 1];
      assert kvs == init + [e];
      AbsorbAllSnoc(f, init, e, render);
      AbsorbAllRaises(f, init, render);
      if AbsorbAll(f, init, render).Success? {
        AbsorbRaises(AbsorbAll(f, init, render).value, e.0, e.1, render);
      }
      if exists i :: 0 <= i < |init| && Raises(init[i].0, init[i].1) {
        var i :| 0 <= i < |init| && Raises(init[i].0, init[i].1);
        assert kvs[i] == init[i];
      }
      if exists i :: 0 <= i < |kvs| && Raises(kvs[i].0, kvs[i].1) {
        var i :| 0 <= i < |kvs| && Raises(kvs[i].0, kvs[i].1);
        if i < |init| {
          assert init[i] == kvs[i];
        }
      }
    }
  }

  /** One item raises exactly when `Raises` says so. */
  lemma AbsorbRaises(f: Fields, k: string, v: JValue, render: JValue -> string)
    ensures Absorb(f, k, v, render).Failure? <==> Raises(k, v)
  {
    if v.JObj? {
      TagTextRaises(v.entries, render);
    }
  }

  lemma {:induction false} AbsorbAllFields(f: Fields, kvs: seq<(string, JValue)>, render: JValue -> string)
    requires AbsorbAll(f, kvs, render).Success?
    ensures AbsorbedFields(f, kvs, render, AbsorbAll(f, kvs, render).value)
    decreases |kvs|
  {
    if |kvs| > 0 {
      var init, e := kvs[..|kvs| - 1], kvs[|kvs| - 1];
      assert kvs == init + [e];
      AbsorbAllSnoc(f, init, e, render);
      AbsorbAllFields(f, init, render);
      AbsorbStep(f, init, e, render, AbsorbAll(f, init, render).value);
    }
  }

  /** One more item keeps the description of the fields. */
  lemma AbsorbStep(f: Fields, init: seq<(string, JValue)>, e: (string, JValue), render: JValue -> string, g: Fields)
    requires AbsorbedFields(f, init, render, g)
    requires Absorb(g, e.0, e.1, render).Success?
    ensures AbsorbedFields(f, init + [e], render, Absorb(g, e.0, e.1, render).value)
  {
    LastOfSnoc(init, e, NameKeys);
    LastOfSnoc(init, e, TypeKeys);
    LastOfSnoc(init, e, ValueKeys);
    LastOfSnoc(init, e, {TimestampKey});
    LastOfSnoc(init, e, TagKeys);
  }

  lemma LastOfSnoc(init: seq<(string, JValue)>, e: (string, JValue), keys: set<string>)
    ensures LastOf(init + [e], keys) == if e.0 in keys && !e.1.JNull? then Some(e.1) else LastOf(init, keys)
  {
    var kvs := init + [e];
    assert kvs[..|kvs| - 1] == init;
  }

  /** The line printed for a record, or `None` when its type is not one of
      counter, meter, timer. */
  function Format(f: Fields, render: JValue -> string): (r: Option<string>)
    ensures r.Some? <==> f.mtype in {JStr("counter"), JStr("meter"), JStr("timer")}
    ensures r.Some? ==> StartsWith(r.value, Prefix(f.mtype) + Rendered(f.name, render) + " ")
    ensures r.Some? ==> EndsWith(r.value, f.tags + "\n")
  {
    var name := Rendered(f.name, render);
    var ts := Decimal(f.timestamp);
    var value := Rendered(f.value, render);
    if f.mtype == JStr("counter") then
      Some(Assemble(Prefix(f.mtype) + name + " ", ts + " " + value + " ", f.tags + "\n"))
    else if f.mtype == JStr("meter") then
      Some(Assemble(Prefix(f.mtype) + name + " ", ts + " " + value + " unit=SECONDS event_type=events",
                    f.tags + "\n"))
    else if f.mtype == JStr("timer") then
      Some(Assemble(Prefix(f.mtype) + name + " ", ts + " " + value + " ", f.tags + "\n"))
    else None
  }

  /** A line made of a head, a middle and a tail. */
  function Assemble(head: string, middle: string, tail: string): (r: string)
    ensures StartsWith(r, head) && EndsWith(r, tail)
    ensures |r| == |head| + |middle| + |tail|
  {
    var r := head + middle + tail;
    assert r[..|head|] == head;
    assert r[|r| - |tail|..] == tail;
    r
  }

  predicate StartsWith(s: string, p: string)
  {
    |p| <= |s| && s[..|p|] == p
  }

  predicate EndsWith(s: string, p: string)
  {
    |p| <= |s| && s[|s| - |p|..] == p
  }

  /** The prefix of the line for a type. */
  function Prefix(t: JValue): string
  {
    if t == JStr("counter") then "autometrics.counters."
    else if t == JStr("meter") then "autometrics.meters."
    else "autometrics.timers."
  }

  /** What `handle_metric` did: the counters afterwards and either the line
      printed (`Some`), a discard (`None`), or the exception raised. */
  datatype Handled = Handled(counters: Counters, outcome: Result<Option<string>, PyError>)

  /** `handle_metric` for one decoded line (`None`: not valid JSON). */
  function HandleMetric(c: Counters, decoded: Option<JValue>, now: int, render: JValue -> string)
    : (h: Handled)
    ensures h.counters.linesRead == c.linesRead + 1
    ensures h.counters.metricsRead == c.metricsRead + (if decoded.Some? then 1 else 0)
    ensures h.outcome.Success? ==>
      h.counters.metricsSent + h.counters.metricsDiscarded == c.metricsSent + c.metricsDiscarded + 1
    ensures h.outcome.Failure? ==>
      h.counters.metricsSent == c.metricsSent && h.counters.metricsDiscarded == c.metricsDiscarded
    ensures h.outcome.Success? && h.outcome.value.Some? ==> h.counters.metricsSent == c.metricsSent + 1
    ensures h.outcome.Success? && h.outcome.value.None? ==> h.counters.metricsDiscarded == c.metricsDiscarded + 1
  {
    var c1 := c.(linesRead := c.linesRead + 1);
    match decoded
    case None => Handled(c1, Failure(MalformedJson))
    case Some(j) =>
      var c2 := c1.(metricsRead := c1.metricsRead + 1);
      match j
      case JObj(kvs) =>
        (match AbsorbAll(Defaults(now), kvs, render)
         case Failure(e) => Handled(c2, Failure(e))
         case Success(f) =>
           match Format(f, render)
           case Some(line) => Handled(c2.(metricsSent := c2.metricsSent + 1), Success(Some(line)))
           case None => Handled(c2.(metricsDiscarded := c2.metricsDiscarded + 1), Success(None)))
      case _ => Handled(c2, Failure(NotAnObject(j)))
  }

  /** Which records are printed: a record is printed exactly when it does
      not raise and its last non-null type alias (default 'counter') is
      counter, meter or timer; the line starts with that type's prefix and
      the name. */
  lemma HandleMetricEmits(c: Counters, kvs: seq<(string, JValue)>, now: int, render: JValue -> string)
    ensures var h := HandleMetric(c, Some(JObj(kvs)), now, render);
      var t := Or(LastOf(kvs, TypeKeys), JStr("counter"));
      && (h.outcome.Success? <==> forall i :: 0 <= i < |kvs| ==> !Raises(kvs[i].0, kvs[i].1))
      && (h.outcome.Success? ==>
            (h.outcome.value.Some? <==> t in {JStr("counter"), JStr("meter"), JStr("timer")}))
      && (h.outcome.Success? && h.outcome.value.Some? ==>
            StartsWith(h.outcome.value.value,
                       Prefix(t) + Rendered(Or(LastOf(kvs, NameKeys), JStr("unidentified")), render) + " "))
  {
    HandleObject(c, kvs, now, render);
    AbsorbAllMeaning(Defaults(now), kvs, render);
  }

  /** For an object, the outcome is the formatted line of the absorbed
      fields, or the exception the items raise. */
  lemma HandleObject(c: Counters, kvs: seq<(string, JValue)>, now: int, render: JValue -> string)
    ensures var h := HandleMetric(c, Some(JObj(kvs)), now, render);
      && (AbsorbAll(Defaults(now), kvs, render).Failure? ==>
            h.outcome == Failure(AbsorbAll(Defaults(now), kvs, render).error))
      && (AbsorbAll(Defaults(now), kvs, render).Success? ==>
            h.outcome == Success(Format(AbsorbAll(Defaults(now), kvs, render).value, render)))
  {
  }

  /** A record without a tags item is printed with ' env=unknown'; one with
      a tags object gets ' category=metrics' followed by its kept tags. */
  lemma HandleMetricTags(kvs: seq<(string, JValue)>, now: int, render: JValue -> string)
    requires AbsorbAll(Defaults(now), kvs, render).Success?
    ensures var g := AbsorbAll(Defaults(now), kvs, render).value;
      && (LastOf(kvs, TagKeys).None? ==> g.tags == DefaultTags)
      && (LastOf(kvs, TagKeys).Some? ==>
            LastOf(kvs, TagKeys).value.JObj?
            && TagText(LastOf(kvs, TagKeys).value.entries, render).Success?
            && g.tags == CategoryTags + TagText(LastOf(kvs, TagKeys).value.entries, render).value)
  {
    AbsorbAllMeaning(Defaults(now), kvs, render);
  }

  /** The tag text holds no excluded tag and no null tag: with no kept tag
      it is empty, and a kept first tag whose value `str()` converts
      contributes ` k=v`, with the value scrubbed, before the rest. */
  lemma {:induction false} TagTextFilters(kvs: seq<(string, JValue)>, render: JValue -> string)
    ensures (forall i :: 0 <= i < |kvs| ==> !Kept(kvs[i])) ==> TagText(kvs, render) == Success("")
    ensures |kvs| > 0 && Kept(kvs[0]) && !Unencodable(kvs[0].1) && TagText(kvs[1..], render).Success? ==>
      TagText(kvs, render)
      == Success(" " + kvs[0].0 + "=" + Scrub(Rendered(kvs[0].1, render)) + TagText(kvs[1..], render).value)
    decreases |kvs|
  {
    if |kvs| > 0 {
      TagTextFilters(kvs[1..], render);
      if forall i :: 0 <= i < |kvs| ==> !Kept(kvs[i]) {
        assert forall i :: 0 <= i < |kvs[1..]| ==> kvs[1..][i] == kvs[i + 1];
      }
    }
  }

  /** A non-ASCII tag value makes `handle_metric` raise after the record
      was counted as read: nothing is printed and nothing counts as sent. */
  lemma NonAsciiTagRaises(c: Counters, kvs: seq<(string, JValue)>, now: int, render: JValue -> string)
    requires kvs == [("tags", JObj([("city", JStr("Z\U{FC}rich"))]))]
    ensures var h := HandleMetric(c, Some(JObj(kvs)), now, render);
      && h.outcome == Failure(UnicodeEncode(JStr("Z\U{FC}rich")))
      && h.counters.metricsRead == c.metricsRead + 1
      && h.counters.metricsSent == c.metricsSent
  {
    var tags := [("city", JStr("Z\U{FC}rich"))];
    assert !Ascii("Z\U{FC}rich") by {
      assert "Z\U{FC}rich"[1] as int == 0xFC;
    }
    assert Kept(tags[0]);
    assert TagText(tags, render) == Failure(UnicodeEncode(JStr("Z\U{FC}rich")));
    assert kvs[1..] == [];
  }

  /** An integer timestamp, or its decimal text, is printed as itself. */
  lemma TimestampRoundTrip(t: int)
    ensures PyInt(JInt(t)) == Some(t)
    ensures PyInt(JStr(Decimal(t))) == Some(t)
  {
    ParseDecimal(t);
  }

  /* ---------- Counters ---------- */

  /** What the counters keep: every line read that decoded was counted as
      read, and every record read was sent or discarded at most once. */
  predicate Balanced(c: Counters)
  {
    c.metricsSent + c.metricsDiscarded <= c.metricsRead <= c.linesRead
  }

  /** Handling a line keeps the counters balanced; a line that raises
      nothing keeps `sent + discarded == read` as it was. */
  lemma HandleMetricBalanced(c: Counters, decoded: Option<JValue>, now: int, render: JValue -> string)
    requires Balanced(c)
    ensures Balanced(HandleMetric(c, decoded, now, render).counters)
    ensures var h := HandleMetric(c, decoded, now, render);
      h.outcome.Success? && c.metricsSent + c.metricsDiscarded == c.metricsRead ==>
        h.counters.metricsSent + h.counters.metricsDiscarded == h.counters.metricsRead
  {
  }

  /** A run of lines none of which raises, starting from zero counters. */
  function HandleAll(c: Counters, lines: seq<Option<JValue>>, now: int, render: JValue -> string)
    : (r: Option<Counters>)
    decreases |lines|
  {
    if |lines| == 0 then Some(c)
    else
      var h := HandleMetric(c, lines[0], now, render);
      if h.outcome.Failure? then None else HandleAll(h.counters, lines[1..], now, render)
  }

  /** From zero, a run without exceptions reads every line, and sends or
      discards every one: sent + discarded == read == lines. */
  lemma {:induction false} HandleAllExact(c: Counters, lines: seq<Option<JValue>>, now: int, render: JValue -> string)
    requires c.metricsSent + c.metricsDiscarded == c.metricsRead == c.linesRead
    requires HandleAll(c, lines, now, render).Some?
    ensures var r := HandleAll(c, lines, now, render).value;
      && r.metricsSent + r.metricsDiscarded == r.metricsRead == r.linesRead
      && r.linesRead == c.linesRead + |lines|
    decreases |lines|
  {
    if |lines| > 0 {
      var h := HandleMetric(c, lines[0], now, render);
      assert lines[0].Some?;
      HandleAllExact(h.counters, lines[1..], now, render);
    }
  }

  /** `send_metrics`: the four report lines, then all counters zero. Each
      line names its counter, carries the clock reading and ends with the
      counter's value. */
  function SendMetrics(c: Counters, now: int): (r: (seq<string>, Counters))
    ensures r.1 == Zero && Balanced(r.1)
    ensures |r.0| == 4
    ensures Reports(r.0[0], "lines.read", now, c.linesRead)
    ensures Reports(r.0[1], "metrics.read", now, c.metricsRead)
    ensures Reports(r.0[2], "metrics.sent", now, c.metricsSent)
    ensures Reports(r.0[3], "metrics.discarded", now, c.metricsDiscarded)
  {
    ([ ReportLine("lines.read", now, c.linesRead),
       ReportLine("metrics.read", now, c.metricsRead),
       ReportLine("metrics.sent", now, c.metricsSent),
       ReportLine("metrics.discarded", now, c.metricsDiscarded) ],
     Zero)
  }

  /** The counter line for `name`: `autometrics.counters.<name> <now> <n>`. */
  predicate Reports(line: string, name: string, now: int, n: int)
  {
    line == "autometrics.counters." + name + " " + Decimal(now) + " " + Decimal(n) + "\n"
  }

  function ReportLine(name: string, now: int, n: int): (line: string)
    ensures Reports(line, name, now, n)
  {
    "autometrics.counters." + name + " " + Decimal(now) + " " + Decimal(n) + "\n"
  }

  /** The last space-separated field of a line, without its newline. */
  function LastField(line: string): string
  {
    AfterLastSpace(if |line| > 0 && line[|line| - 1] == '\n' then line[..|line| - 1] else line)
  }

  function AfterLastSpace(s: string): (r: string)
    decreases |s|
  {
    if |s| == 0 || s[|s| - 1] == ' ' then "" else AfterLastSpace(s[..|s| - 1]) + [s[|s| - 1]]
  }

  /** A field without spaces is what follows the last space. */
  lemma {:induction false} AfterLastSpaceOf(p: string, d: string)
    requires forall i :: 0 <= i < |d| ==> d[i] != ' '
    ensures AfterLastSpace(p + " " + d) == d
    decreases |d|
  {
    var s := p + " " + d;
    if |d| == 0 {
      assert s[|s| - 1] == ' ';
    } else {
      var d' := d[..|d| - 1];
      assert s[..|s| - 1] == p + " " + d';
      AfterLastSpaceOf(p, d');
      assert d == d' + [d[|d| - 1]];
    }
  }

  /** Decimal text holds no space. */
  lemma DecimalNoSpace(i: int)
    ensures forall k :: 0 <= k < |Decimal(i)| ==> Decimal(i)[k] != ' '
  {
    var n := if i < 0 then -i else i;
    assert AllDigits(NatDigits(n));
    if i < 0 {
      assert forall k :: 1 <= k < |Decimal(i)| ==> Decimal(i)[k] == NatDigits(n)[k - 1];
    }
  }

  /** Reading a report line back: its last field parses to the counter it
      reports, for each of the four lines. */
  lemma {:induction false} SendMetricsReports(c: Counters, now: int)
    ensures var lines := SendMetrics(c, now).0;
      && ParseInt(LastField(lines[0])) == Some(c.linesRead as int)
      && ParseInt(LastField(lines[1])) == Some(c.metricsRead as int)
      && ParseInt(LastField(lines[2])) == Some(c.metricsSent as int)
      && ParseInt(LastField(lines[3])) == Some(c.metricsDiscarded as int)
  {
    var lines := SendMetrics(c, now).0;
    ReportReadsBack("lines.read", now, c.linesRead, lines[0]);
    ReportReadsBack("metrics.read", now, c.metricsRead, lines[1]);
    ReportReadsBack("metrics.sent", now, c.metricsSent, lines[2]);
    ReportReadsBack("metrics.discarded", now, c.metricsDiscarded, lines[3]);
  }

  /** The last field of a counter line is the counter's decimal text, which
      parses back to the counter. */
  lemma ReportReadsBack(name: string, now: int, n: int, line: string)
    requires Reports(line, name, now, n)
    ensures ParseInt(LastField(line)) == Some(n)
  {
    var p := "autometrics.counters." + name + " " + Decimal(now);
    assert line == (p + " " + Decimal(n)) + "\n";
    assert line[..|line| - 1] == p + " " + Decimal(n);
    DecimalNoSpace(n);
    AfterLastSpaceOf(p, Decimal(n));
    ParseDecimal(n);
  }
}
