/** The helpers lib/arison/core.rb keeps its own copies of: `get_type`,
    `to_time_or_nil` and `parse_json`. They differ from lib/arison/util.rb:
    `get_type` has no final fallback, and `parse_json` neither skips blank
    lines nor survives a bad one. */
module CoreUtil {
  import opened Values
  import Util

  /** `Core#to_time_or_nil`: it is only given Strings and has no length check,
      yet the regex on the four-character slice rejects short strings anyway. */
  function ToTimeOrNil(s: string, toTime: TimeParser): (r: Option<int>)
    ensures r.Some? <==> Util.LooksLikeTime(s, toTime)
    ensures r.Some? ==> r == toTime(s) && r.value >= 0
  {
    Util.SliceMatchesIffLeadingDigits(s);
    if !Util.MatchesFourDigits(Util.Slice4(s)) then None
    else match toTime(s)
      case None => None
      case Some(t) => if t >= 0 then Some(t) else None
  }

  /** Both copies of the timestamp guard agree on every String. */
  lemma ToTimeOrNilAgrees(s: string, toTime: TimeParser)
    ensures ToTimeOrNil(s, toTime) == Util.ToTimeOrNil(Str(s), toTime)
  {
  }

  /** `Core#get_type`: as in util.rb up to the `strftime` test, after which
      there is no `else`, so an object of any other class gets no type. */
  function GetType(k: string, v: Value, toTime: TimeParser): (r: Option<ColumnType>)
    ensures r.None? <==> (!v.Nil? && (Util.MatchesId(k) || v.Other?))
    ensures v.Nil? ==> r == Some(StringType)
  {
    if v.Nil? then Some(StringType)
    else if Util.MatchesId(k) then None
    else match v
      case Str(s) => if ToTimeOrNil(s, toTime).None? then Some(StringType) else Some(DatetimeType)
      case Bool(_) => Some(BooleanType)
      case Int(_) => Some(IntegerType)
      case Flt(_) => Some(FloatType)
      case Arr(_) => Some(TextType)
      case Hash(_) => Some(TextType)
      case TimeLike(_) => Some(DatetimeType)
      case Other(_) => None
  }

  /** The two copies of `get_type` differ only on objects of an unrecognised
      class under an unreserved name: util.rb says `string`, core.rb nil. */
  lemma GetTypeAgrees(k: string, v: Value, toTime: TimeParser)
    ensures !v.Other? ==> GetType(k, v, toTime) == Util.GetType(k, v, toTime)
    ensures v.Other? && !Util.MatchesId(k) ==>
      GetType(k, v, toTime) == None && Util.GetType(k, v, toTime) == Some(StringType)
  {
    if v.Str? {
      ToTimeOrNilAgrees(v.s, toTime);
    }
  }

  /** What core.rb's fallback yields: the parse of every line, or nothing as
      soon as one line fails. */
  function ParseEveryLine(ls: seq<string>, parse: JsonParser): (r: Option<seq<Value>>)
    ensures r.Some? ==> |r.value| == |ls|
    ensures r.Some? <==> forall i :: 0 <= i < |ls| ==> parse(ls[i]).Some?
    ensures r.Some? ==> forall i :: 0 <= i < |ls| ==> r.value[i] == parse(ls[i]).value
  {
    if ls == [] then Some([])
    else
      var init := ParseEveryLine(ls[..|ls| - 1], parse);
      var last := parse(ls[|ls| - 1]);
      if init.None? || last.None? then None else Some(init.value + [last.value])
  }

  /** `Core#parse_json`: the whole-buffer parse when there is one; otherwise
      the parse of every line, where one unparsable line (a blank one
      included) raises out of the whole call (None). */
  method ParseJson(buffer: string, parse: JsonParser) returns (data: Option<Value>)
    ensures parse(buffer).Some? ==> data == parse(buffer)
    ensures parse(buffer).None? ==>
      data == (var all := ParseEveryLine(Util.Lines(buffer), parse);
               if all.Some? then Some(Arr(all.value)) else None)
  {
    var whole := parse(buffer);
    if whole.Some? {
      return whole;
    }
    var lines := Util.Lines(buffer);
    var items: seq<Value> := [];
    var i := 0;
    while i < |lines|
      invariant 0 <= i <= |lines|
      invariant ParseEveryLine(lines[..i], parse) == Some(items)
    {
      assert lines[..i + 1][..i] == lines[..i];
      var parsed := parse(lines[i]);
      if parsed.None? {
        assert ParseEveryLine(lines[..i + 1], parse).None?;
        ParseEveryLineExtends(lines, i + 1, parse);
        return None;
      }
      items := items + [parsed.value];
      i := i + 1;
    }
    assert lines[..i] == lines;
    data := Some(Arr(items));
  }

  /** Once a prefix of the lines fails, the whole fails. */
  lemma {:induction false} ParseEveryLineExtends(ls: seq<string>, n: nat, parse: JsonParser)
    requires n <= |ls|
    requires ParseEveryLine(ls[..n], parse).None?
    ensures ParseEveryLine(ls, parse).None?
  {
    var i :| 0 <= i < n && parse(ls[..n][i]).None?;
    assert ls[i] == ls[..n][i];
  }

  /** When every line is non-blank and parses, core.rb and util.rb read a
      JSON Lines buffer alike. */
  lemma {:induction false} ParseAgreesOnCleanLines(ls: seq<string>, parse: JsonParser)
    requires forall i :: 0 <= i < |ls| ==> !Util.Blank(ls[i]) && parse(ls[i]).Some?
    ensures ParseEveryLine(ls, parse) == Some(Util.ParsedLines(ls, parse))
  {
    if ls != [] {
      ParseAgreesOnCleanLines(ls[..|ls| - 1], parse);
    }
  }
}
