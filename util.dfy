/** lib/arison/util.rb: column-type inference, the timestamp guard, and the
    JSON / JSON Lines reader. */
module Util {
  import opened Values

  // ---------------------------------------------------------------------------
  // Ruby regular expressions used by the inference. In Ruby `^` and `$` match at
  // the start and end of every line, not only of the whole string.

  predicate LineStart(s: string, p: int) {
    p == 0 || (0 < p <= |s| && s[p - 1] == '\n')
  }

  predicate LineEnd(s: string, p: int) {
    p == |s| || (0 <= p < |s| && s[p] == '\n')
  }

  predicate IsDigit(c: char) { '0' <= c <= '9' }

  /** `/^id$/i` matches at position `p`. */
  predicate IdAt(k: string, p: int) {
    0 <= p && p + 2 <= |k| && LineStart(k, p) && LineEnd(k, p + 2)
    && (k[p] == 'i' || k[p] == 'I') && (k[p + 1] == 'd' || k[p + 1] == 'D')
  }

  /** `k =~ /^id$/i` */
  predicate MatchesId(k: string) {
    exists p :: 0 <= p < |k| - 1 && IdAt(k, p)
  }

  /** `/^[0-9][0-9][0-9][0-9]/` matches at position `p`. */
  predicate FourDigitsAt(t: string, p: int) {
    0 <= p && p + 4 <= |t| && LineStart(t, p)
    && IsDigit(t[p]) && IsDigit(t[p + 1]) && IsDigit(t[p + 2]) && IsDigit(t[p + 3])
  }

  /** `t =~ /^[0-9][0-9][0-9][0-9]/` */
  predicate MatchesFourDigits(t: string) {
    exists p :: 0 <= p <= |t| - 4 && FourDigitsAt(t, p)
  }

  /** `value.slice(0, 4)`: the first four characters, or all of a shorter string. */
  function Slice4(s: string): (t: string)
    ensures |t| <= 4 && t <= s
  {
    if |s| <= 4 then s else s[..4]
  }

  /** The plain reading of the timestamp guard: four ASCII digits lead the string. */
  predicate LeadingFourDigits(s: string) {
    |s| >= 4 && forall i :: 0 <= i < 4 ==> IsDigit(s[i])
  }

  /** On the four-character slice, the line-anchored regex can only match at the
      start, so it tests exactly the plain reading. */
  lemma SliceMatchesIffLeadingDigits(s: string)
    ensures MatchesFourDigits(Slice4(s)) <==> LeadingFourDigits(s)
  {
    var t := Slice4(s);
    if MatchesFourDigits(t) {
      var p :| 0 <= p <= |t| - 4 && FourDigitsAt(t, p);
      assert p == 0;
      assert t == s[..4];
    }
    if LeadingFourDigits(s) {
      assert FourDigitsAt(t, 0);
    }
  }

  /** A field name without a newline is reserved exactly when it spells `id`
      in any letter case. */
  lemma MatchesIdSingleLine(k: string)
    requires forall i :: 0 <= i < |k| ==> k[i] != '\n'
    ensures MatchesId(k) <==> (|k| == 2 && (k[0] == 'i' || k[0] == 'I') && (k[1] == 'd' || k[1] == 'D'))
  {
    if MatchesId(k) {
      var p :| 0 <= p < |k| - 1 && IdAt(k, p);
      assert p == 0 && p + 2 == |k|;
    }
    if |k| == 2 && (k[0] == 'i' || k[0] == 'I') && (k[1] == 'd' || k[1] == 'D') {
      assert IdAt(k, 0);
    }
  }

  /** Because the anchors are per line, a multi-line name with an `id` line is
      reserved too. */
  lemma MatchesIdOnAnyLine()
    ensures MatchesId("note\nid") && MatchesId("ID\nnote")
    ensures !MatchesId("idx") && !MatchesId("uid")
  {
    assert IdAt("note\nid", 5);
    assert IdAt("ID\nnote", 0);
    MatchesIdSingleLine("idx");
    MatchesIdSingleLine("uid");
  }

  // ---------------------------------------------------------------------------
  // to_time_or_nil and get_type

  /** A string the timestamp guard accepts: four leading digits, a successful
      parse, and a time not before the epoch. */
  predicate LooksLikeTime(s: string, toTime: TimeParser) {
    LeadingFourDigits(s) && toTime(s).Some? && toTime(s).value >= 0
  }

  /** `Util.to_time_or_nil`: the parsed time (as its epoch seconds) when the
      value is a String of at least four characters led by four digits, the
      parse succeeds, and the time is not before the epoch; nil otherwise. */
  function ToTimeOrNil(v: Value, toTime: TimeParser): (r: Option<int>)
    ensures r.Some? <==> v.Str? && LooksLikeTime(v.s, toTime)
    ensures r.Some? ==> r == toTime(v.s) && r.value >= 0
  {
    SliceMatchesIffLeadingDigits(if v.Str? then v.s else "");
    if !v.Str? then None
    else if |v.s| < 4 then None
    else if !MatchesFourDigits(Slice4(v.s)) then None
    else match toTime(v.s)
      case None => None
      case Some(t) => if t >= 0 then Some(t) else None
  }

  /** `Util.get_type`: nil is a string column whatever the name; otherwise a
      reserved `id` name gets no column; otherwise the class decides, with
      `string` as the fallback. */
  function GetType(k: string, v: Value, toTime: TimeParser): (r: Option<ColumnType>)
    ensures r.None? <==> (!v.Nil? && MatchesId(k))
    ensures v.Nil? ==> r == Some(StringType)
    ensures v.Str? && !MatchesId(k) ==>
      (r == Some(DatetimeType) <==> ToTimeOrNil(v, toTime).Some?)
  {
    if v.Nil? then Some(StringType)
    else if MatchesId(k) then None
    else match v
      case Str(_) => if ToTimeOrNil(v, toTime).None? then Some(StringType) else Some(DatetimeType)
      case Bool(_) => Some(BooleanType)
      case Int(_) => Some(IntegerType)
      case Flt(_) => Some(FloatType)
      case Arr(_) => Some(TextType)
      case Hash(_) => Some(TextType)
      case TimeLike(_) => Some(DatetimeType)
      case Other(_) => Some(StringType)
  }

  /** The decision order for a non-nil value under an unreserved name. */
  lemma GetTypeDecisionOrder(k: string, v: Value, toTime: TimeParser)
    requires !v.Nil? && !MatchesId(k)
    ensures v.Bool? ==> GetType(k, v, toTime) == Some(BooleanType)
    ensures v.Int? ==> GetType(k, v, toTime) == Some(IntegerType)
    ensures v.Flt? ==> GetType(k, v, toTime) == Some(FloatType)
    ensures v.Arr? || v.Hash? ==> GetType(k, v, toTime) == Some(TextType)
    ensures v.TimeLike? ==> GetType(k, v, toTime) == Some(DatetimeType)
    ensures v.Other? ==> GetType(k, v, toTime) == Some(StringType)
    ensures v.Str? && LooksLikeTime(v.s, toTime) ==> GetType(k, v, toTime) == Some(DatetimeType)
    ensures v.Str? && !LooksLikeTime(v.s, toTime) ==> GetType(k, v, toTime) == Some(StringType)
  {
  }

  /** The field names and strings the inference is specified against; the
      timestamp string is a time only if the parser reads it as one. */
  lemma GetTypeExamples(toTime: TimeParser)
    requires toTime("2024-12-25 10:00:00") == Some(1735120800)
    ensures GetType("any_column", Nil, toTime) == Some(StringType)
    ensures GetType("id", Int(123), toTime) == None
    ensures GetType("ID", Int(123), toTime) == None
    ensures GetType("name", Str("Alice"), toTime) == Some(StringType)
    ensures GetType("created_at", Str("2024-12-25 10:00:00"), toTime) == Some(DatetimeType)
  {
    MatchesIdSingleLine("id");
    MatchesIdSingleLine("ID");
    MatchesIdSingleLine("name");
    MatchesIdSingleLine("created_at");
    assert !IsDigit('A');
  }

  /** The values of every other kind the inference is specified against. */
  lemma GetTypeKindExamples(toTime: TimeParser)
    ensures GetType("active", Bool(true), toTime) == Some(BooleanType)
    ensures GetType("active", Bool(false), toTime) == Some(BooleanType)
    ensures GetType("age", Int(30), toTime) == Some(IntegerType)
    ensures GetType("price", Flt("19.99"), toTime) == Some(FloatType)
    ensures GetType("tags", Arr([Str("ruby"), Str("rails")]), toTime) == Some(TextType)
    ensures GetType("metadata", Hash([Field("key", Str("value"))]), toTime) == Some(TextType)
    ensures forall t :: GetType("timestamp", TimeLike(t), toTime) == Some(DatetimeType)
    ensures forall t :: GetType("date", TimeLike(t), toTime) == Some(DatetimeType)
  {
    MatchesIdSingleLine("active");
    MatchesIdSingleLine("age");
    MatchesIdSingleLine("price");
    MatchesIdSingleLine("tags");
    MatchesIdSingleLine("metadata");
    MatchesIdSingleLine("timestamp");
    MatchesIdSingleLine("date");
  }

  /** The strings the timestamp guard is specified against: those without
      four leading digits are never times, whatever the parser says. */
  lemma ToTimeOrNilExamples(toTime: TimeParser)
    ensures ToTimeOrNil(Str("hello world"), toTime) == None
    ensures ToTimeOrNil(Str("abc-12-25"), toTime) == None
    ensures ToTimeOrNil(Str(""), toTime) == None
    ensures forall t :: t >= 0 && toTime("2024-12-25T10:00:00") == Some(t) ==>
      ToTimeOrNil(Str("2024-12-25T10:00:00"), toTime) == Some(t)
    ensures forall t :: t >= 0 && toTime("2024-12-25 10:00:00") == Some(t) ==>
      ToTimeOrNil(Str("2024-12-25 10:00:00"), toTime) == Some(t)
    ensures toTime("1900-01-01") == Some(-2208988800) ==> ToTimeOrNil(Str("1900-01-01"), toTime) == None
  {
    assert !IsDigit('h');
    assert !IsDigit('a');
  }

  // ---------------------------------------------------------------------------
  // parse_json

  /** Index of the first newline of `s` at or after `k`, or |s| when there
      is none. */
  function NewlineFrom(s: string, k: nat): (i: nat)
    requires k <= |s|
    ensures k <= i <= |s|
    ensures i < |s| ==> s[i] == '\n'
    decreases |s| - k
  {
    if k == |s| || s[k] == '\n' then k else NewlineFrom(s, k + 1)
  }

  /** The newline found is the first one. */
  lemma {:induction false} NewlineFromIsFirst(s: string, k: nat)
    requires k <= |s|
    ensures forall j :: k <= j < NewlineFrom(s, k) ==> s[j] != '\n'
    decreases |s| - k
  {
    if k < |s| && s[k] != '\n' {
      NewlineFromIsFirst(s, k + 1);
    }
  }

  /** `String#lines`: the buffer cut after every newline, each line keeping its
      newline. */
  function Lines(s: string): seq<string> {
    LinesFrom(s, 0)
  }

  /** The lines of `s[k..]`. */
  function LinesFrom(s: string, k: nat): seq<string>
    requires k <= |s|
    decreases |s| - k
  {
    if k == |s| then []
    else
      var i := NewlineFrom(s, k);
      if i == |s| then [s[k..]] else [s[k..i + 1]] + LinesFrom(s, i + 1)
  }

  function Concat(ls: seq<string>): string {
    if ls == [] then [] else ls[0] + Concat(ls[1..])
  }

  /** A line holds a newline at most as its last character. */
  predicate NoInnerNewline(line: string) {
    forall c :: 0 <= c < |line| - 1 ==> line[c] != '\n'
  }

  /** Cutting into lines loses nothing and cuts after every newline: the
      lines put back together are the buffer, no line is empty, every line
      but the last ends in a newline, and no line holds a newline before its
      end. */
  lemma LinesConcat(s: string)
    ensures Concat(Lines(s)) == s
    ensures forall j :: 0 <= j < |Lines(s)| ==> Lines(s)[j] != []
    ensures forall j :: 0 <= j < |Lines(s)| - 1 ==> Lines(s)[j][|Lines(s)[j]| - 1] == '\n'
    ensures forall j :: 0 <= j < |Lines(s)| ==> NoInnerNewline(Lines(s)[j])
  {
    LinesFromConcat(s, 0);
    LinesFromNoInner(s, 0);
  }

  lemma {:induction false} LinesFromConcat(s: string, k: nat)
    requires k <= |s|
    ensures Concat(LinesFrom(s, k)) == s[k..]
    ensures forall j :: 0 <= j < |LinesFrom(s, k)| ==> LinesFrom(s, k)[j] != []
    ensures forall j :: 0 <= j < |LinesFrom(s, k)| - 1 ==> LinesFrom(s, k)[j][|LinesFrom(s, k)[j]| - 1] == '\n'
    decreases |s| - k
  {
    if k < |s| {
      var i := NewlineFrom(s, k);
      if i < |s| {
        var head := s[k..i + 1];
        var rest := LinesFrom(s, i + 1);
        LinesFromConcat(s, i + 1);
        ConcatCons(head, rest);
        assert s[k..] == head + s[i + 1..];
        LinesJoin(head, rest, LinesFrom(s, k));
      }
    }
  }

  /** Each line of `s[k..]` ends at the first newline after its start. */
  lemma {:induction false} LinesFromNoInner(s: string, k: nat)
    requires k <= |s|
    ensures forall j :: 0 <= j < |LinesFrom(s, k)| ==> NoInnerNewline(LinesFrom(s, k)[j])
    decreases |s| - k
  {
    if k < |s| {
      var i := NewlineFrom(s, k);
      var line := LinesFrom(s, k)[0];
      assert line == s[k..if i == |s| then i else i + 1];
      NewlineFromIsFirst(s, k);
      assert NoInnerNewline(line) by {
        forall c | 0 <= c < |line| - 1 ensures line[c] != '\n' {
          assert line[c] == s[k + c];
        }
      }
      if i < |s| {
        LinesFromNoInner(s, i + 1);
        forall j | 1 <= j < |LinesFrom(s, k)|
          ensures NoInnerNewline(LinesFrom(s, k)[j])
        {
          assert LinesFrom(s, k)[j] == LinesFrom(s, i + 1)[j - 1];
        }
      }
    }
  }

  lemma ConcatCons(head: string, rest: seq<string>)
    ensures Concat([head] + rest) == head + Concat(rest)
  {
    assert ([head] + rest)[1..] == rest;
  }

  /** Putting a non-empty first line ending in a newline in front of lines
      with those properties keeps them. */
  lemma LinesJoin(head: string, rest: seq<string>, ls: seq<string>)
    requires ls == [head] + rest && head != [] && head[|head| - 1] == '\n'
    requires forall j :: 0 <= j < |rest| ==> rest[j] != []
    requires forall j :: 0 <= j < |rest| - 1 ==> rest[j][|rest[j]| - 1] == '\n'
    ensures forall j :: 0 <= j < |ls| ==> ls[j] != []
    ensures forall j :: 0 <= j < |ls| - 1 ==> ls[j][|ls[j]| - 1] == '\n'
  {
    forall j | 0 < j < |ls| ensures ls[j] == rest[j - 1] {
    }
  }

  predicate IsSpace(c: char) {
    c == ' ' || c == '\t' || c == '\n' || c == '\U{0B}' || c == '\U{0C}' || c == '\r' || c == '\0'
  }

  /** `line.strip.empty?`: the line holds only whitespace and NUL characters. */
  predicate Blank(line: string) {
    forall i :: 0 <= i < |line| ==> IsSpace(line[i])
  }

  /** What the line-by-line fallback collects: the parses of the non-blank
      lines that parse, in line order. */
  function ParsedLines(ls: seq<string>, parse: JsonParser): seq<Value> {
    if ls == [] then []
    else
      var last := ls[|ls| - 1];
      ParsedLines(ls[..|ls| - 1], parse)
        + (if Blank(last) || parse(last).None? then [] else [parse(last).value])
  }

  function NonBlankCount(ls: seq<string>): nat {
    if ls == [] then 0 else NonBlankCount(ls[..|ls| - 1]) + (if Blank(ls[|ls| - 1]) then 0 else 1)
  }

  /** `Util.parse_json`: the whole-buffer parse when there is one; otherwise an
      array of the parses of the non-blank lines that parse. A bad line is
      skipped and never aborts the read. */
  method ParseJson(buffer: string, parse: JsonParser) returns (data: Value)
    ensures parse(buffer).Some? ==> data == parse(buffer).value
    ensures parse(buffer).None? ==> data == Arr(ParsedLines(Lines(buffer), parse))
  {
    var whole := parse(buffer);
    if whole.Some? {
      return whole.value;
    }
    var lines := Lines(buffer);
    var items: seq<Value> := [];
    var i := 0;
    while i < |lines|
      invariant 0 <= i <= |lines|
      invariant items == ParsedLines(lines[..i], parse)
    {
      var line := lines[i];
      assert lines[..i + 1][..i] == lines[..i];
      if Blank(line) {
        i := i + 1;
        continue;
      }
      var parsed := parse(line);
      if parsed.Some? {
        items := items + [parsed.value];
      }
      i := i + 1;
    }
    assert lines[..i] == lines;
    data := Arr(items);
  }

  /** The fallback yields at most one value per non-blank line, and exactly one
      per non-blank line when every such line parses. */
  lemma {:induction false} ParsedLinesBound(ls: seq<string>, parse: JsonParser)
    ensures |ParsedLines(ls, parse)| <= NonBlankCount(ls)
    ensures (forall i :: 0 <= i < |ls| && !Blank(ls[i]) ==> parse(ls[i]).Some?) ==>
      |ParsedLines(ls, parse)| == NonBlankCount(ls)
  {
    if ls != [] {
      ParsedLinesBound(ls[..|ls| - 1], parse);
    }
  }

  /** The fallback reads lines independently: splitting the lines anywhere splits
      the result at the same place, so values keep the order of their lines. */
  lemma {:induction false} ParsedLinesAppend(a: seq<string>, b: seq<string>, parse: JsonParser)
    ensures ParsedLines(a + b, parse) == ParsedLines(a, parse) + ParsedLines(b, parse)
    decreases |b|
  {
    if b != [] {
      var b' := b[..|b| - 1];
      assert (a + b)[..|a + b| - 1] == a + b';
      ParsedLinesAppend(a, b', parse);
    } else {
      assert a + b == a;
    }
  }
}
