/**
 * The change-vector parser: every match of `\w{1,4}:(\d+)-(.{22})` in a
 * RavenDB change vector becomes one (database id, etag) element.
 *
 * The regular expression is modelled by `MatchAt`, the match that starts at
 * the first character of a string, and `Matches`, the left-to-right scan that
 * restarts after each match and moves one character on after each failure.
 */
module ChangeVectorAnalyzer {
  import opened Wrappers
  import opened Text
  import opened StorageFormat

  /** Most characters the tag before ':' may have (`\w{1,4}`). */
  const MaxTagLength: nat := 4
  /** Exact length of the database id after '-' (`.{22}`). */
  const DatabaseIdLength: nat := 22

  datatype ChangeVectorElement = ChangeVectorElement(databaseId: string, etag: int64)

  /** One match: how many characters it spans, group 1 (the etag digits) and group 2 (the id). */
  datatype Match = Match(length: nat, digits: string, databaseId: string)

  /** The exceptions `long.Parse` raises. */
  datatype ParseError = FormatException | OverflowException

  /** Length of the run of word characters at the start of `s`. */
  function WordRun(s: string): (n: nat)
    ensures n <= |s|
    ensures forall i :: 0 <= i < n ==> IsWordChar(s[i])
    ensures n < |s| ==> !IsWordChar(s[n])
  {
    if s != [] && IsWordChar(s[0]) then 1 + WordRun(s[1..]) else 0
  }

  /** Length of the run of digits at the start of `s`. */
  function DigitRun(s: string): (n: nat)
    ensures n <= |s|
    ensures forall i :: 0 <= i < n ==> IsDigit(s[i])
    ensures n < |s| ==> !IsDigit(s[n])
  {
    if s != [] && IsDigit(s[0]) then 1 + DigitRun(s[1..]) else 0
  }

  /** No character of `s` is a line break, so `.` matches each of them. */
  predicate NoLineBreak(s: string) {
    s == [] || (s[0] != '\n' && NoLineBreak(s[1..]))
  }

  /**
   * The match that starts at the first character of `s`, if any. Because
   * neither ':' nor '-' can be matched by the class before it, the greedy
   * quantifiers can only succeed with the whole run of word characters (of
   * length 1 to 4) and the whole run of digits; `.` is any character but '\n'.
   */
  function MatchAt(s: string): (r: Option<Match>)
    ensures r.Some? ==> DatabaseIdLength < r.value.length <= |s|
    ensures r.Some? ==> r.value.digits != [] && AllDigits(r.value.digits)
    ensures r.Some? ==> r.value.databaseId == s[r.value.length - DatabaseIdLength..r.value.length]
  {
    var w := WordRun(s);
    if w == 0 || w > MaxTagLength || w == |s| || s[w] != ':' then None
    else
      var tail := AfterColon(s[w + 1..]);
      if tail.None? then None
      else
        var m := tail.value;
        assert s[w + 1..][m.length - DatabaseIdLength..m.length]
            == s[w + 1 + m.length - DatabaseIdLength..w + 1 + m.length];
        Some(m.(length := w + 1 + m.length))
  }

  /** The `(\d+)-(.{22})` part of the pattern, matched at the start of `t`. */
  function AfterColon(t: string): (r: Option<Match>)
    ensures r.Some? ==> DatabaseIdLength < r.value.length <= |t|
    ensures r.Some? ==> r.value.digits != [] && AllDigits(r.value.digits)
    ensures r.Some? ==> r.value.databaseId == t[r.value.length - DatabaseIdLength..r.value.length]
  {
    var d := DigitRun(t);
    if d == 0 || d + 1 + DatabaseIdLength > |t| || t[d] != '-' then None
    else
      var id := t[d + 1..d + 1 + DatabaseIdLength];
      if !NoLineBreak(id) then None
      else Some(Match(d + 1 + DatabaseIdLength, t[..d], id))
  }

  /**
   * `Regex.Matches`: all non-overlapping matches, leftmost first. Every one has
   * a non-empty digit group and a 22-character id free of '\n'.
   */
  function Matches(s: string): (r: seq<Match>)
    ensures forall i :: 0 <= i < |r| ==> r[i].digits != [] && AllDigits(r[i].digits)
    ensures forall i :: 0 <= i < |r| ==> |r[i].databaseId| == DatabaseIdLength && NoLineBreak(r[i].databaseId)
    decreases |s|
  {
    if s == [] then []
    else match MatchAt(s)
      case Some(m) => [m] + Matches(s[m.length..])
      case None => Matches(s[1..])
  }

  /** `long.Parse` on the text of a digit group. */
  function ParseLong(digits: string): (r: Result<int64, ParseError>)
    ensures r.Success? ==> digits != [] && AllDigits(digits) && DecimalValue(digits) == r.value
    ensures digits == [] || !AllDigits(digits) ==> r == Failure(FormatException)
    ensures r.Failure? && digits != [] && AllDigits(digits) ==> r == Failure(OverflowException)
  {
    if digits == [] || !AllDigits(digits) then Failure(FormatException)
    else if DecimalValue(digits) > INT64_MAX then Failure(OverflowException)
    else Success(DecimalValue(digits))
  }

  /** The elements read from a sequence of matches; the first failing parse is the result. */
  function Parse(matches: seq<Match>): (r: Result<seq<ChangeVectorElement>, ParseError>)
    ensures r.Success? ==>
              && |r.value| == |matches|
              && forall i :: 0 <= i < |matches| ==>
                   r.value[i].databaseId == matches[i].databaseId && ParseLong(matches[i].digits) == Success(r.value[i].etag)
    ensures r.Failure? ==> exists i :: 0 <= i < |matches| && ParseLong(matches[i].digits) == Failure(r.error)
  {
    if matches == [] then Success([])
    else
      var etag :- ParseLong(matches[0].digits);
      var rest := Parse(matches[1..]);
      if rest.Failure? then
        var i :| 0 <= i < |matches[1..]| && ParseLong(matches[1..][i].digits) == Failure(rest.error);
        assert matches[i + 1] == matches[1..][i];
        Failure(rest.error)
      else
        assert forall i :: 1 <= i < |matches| ==> matches[i] == matches[1..][i - 1];
        Success([ChangeVectorElement(matches[0].databaseId, etag)] + rest.value)
  }

  /** `list` followed by the elements of `r`, or the failure of `r`. */
  function Prefixed(list: seq<ChangeVectorElement>, r: Result<seq<ChangeVectorElement>, ParseError>)
    : Result<seq<ChangeVectorElement>, ParseError>
  {
    if r.Failure? then r else Success(list + r.value)
  }

  /** Adding one element to the list commutes with prefixing the rest of the parse. */
  lemma PrefixedCons(list: seq<ChangeVectorElement>, element: ChangeVectorElement,
                     tail: Result<seq<ChangeVectorElement>, ParseError>)
    ensures Prefixed(list, if tail.Failure? then tail else Success([element] + tail.value))
            == Prefixed(list + [element], tail)
  {
    if tail.Success? {
      assert list + ([element] + tail.value) == (list + [element]) + tail.value;
    }
  }

  /** `ChangeVectorAnalyzer.ToList`: one element per match, added in match order. */
  method ToList(changeVector: string) returns (r: Result<seq<ChangeVectorElement>, ParseError>)
    ensures r == Parse(Matches(changeVector))
  {
    var matches := Matches(changeVector);
    var list: seq<ChangeVectorElement> := [];
    assert matches[0..] == matches;
    assert Parse(matches).Success? ==> [] + Parse(matches).value == Parse(matches).value;
    for i := 0 to |matches|
      invariant Parse(matches) == Prefixed(list, Parse(matches[i..]))
    {
      assert matches[i..][1..] == matches[i + 1..];
      var etag := ParseLong(matches[i].digits);
      if etag.Failure? {
        return Failure(etag.error);
      }
      var element := ChangeVectorElement(matches[i].databaseId, etag.value);
      PrefixedCons(list, element, Parse(matches[i + 1..]));
      list := list + [element];
    }
    assert matches[|matches|..] == [];
    assert list + [] == list;
    return Success(list);
  }

  /**
   * The meaning of the parse: on success, one element per match with the
   * match's id and the decimal value of its digits; it fails exactly when some
   * digit group is larger than the largest `long`, and then with OverflowException.
   */
  lemma {:induction false} ParseMeaning(matches: seq<Match>)
    requires forall i :: 0 <= i < |matches| ==> matches[i].digits != [] && AllDigits(matches[i].digits)
    ensures Parse(matches).Failure? <==>
      exists i :: 0 <= i < |matches| && DecimalValue(matches[i].digits) > INT64_MAX
    ensures Parse(matches).Failure? ==> Parse(matches).error == OverflowException
    ensures Parse(matches).Success? ==>
      |Parse(matches).value| == |matches| &&
      forall i :: 0 <= i < |matches| ==>
        Parse(matches).value[i] == ChangeVectorElement(matches[i].databaseId, DecimalValue(matches[i].digits))
  {
    if matches != [] {
      var rest := matches[1..];
      assert forall i :: 1 <= i < |matches| ==> matches[i] == rest[i - 1];
      ParseMeaning(rest);
      if Parse(matches).Success? {
        var r := Parse(matches).value;
        assert forall i :: 1 <= i < |matches| ==> r[i] == Parse(rest).value[i - 1];
      }
      if DecimalValue(matches[0].digits) <= INT64_MAX && Parse(rest).Failure? {
        var i :| 0 <= i < |rest| && DecimalValue(rest[i].digits) > INT64_MAX;
        assert matches[i + 1] == rest[i];
      }
    }
  }

  /** A string in which no position starts a match, the empty string included, has no elements. */
  lemma {:induction false} NoMatchNoElements(s: string)
    requires forall k :: 0 <= k < |s| ==> MatchAt(s[k..]).None?
    ensures Matches(s) == []
    ensures Parse(Matches(s)) == Success([])
    decreases |s|
  {
    if s != [] {
      assert s[0..] == s;
      forall k | 0 <= k < |s| - 1
        ensures MatchAt(s[1..][k..]).None?
      {
        assert s[1..][k..] == s[k + 1..];
      }
      NoMatchNoElements(s[1..]);
    }
  }

  /** In particular a change vector without ':' has no elements. */
  lemma NoColonNoElements(s: string)
    requires ':' !in s
    ensures Parse(Matches(s)) == Success([])
  {
    forall k | 0 <= k < |s|
      ensures MatchAt(s[k..]).None?
    {
      var w := WordRun(s[k..]);
      if w < |s[k..]| {
        assert s[k..][w] == s[k + w];
      }
    }
    NoMatchNoElements(s);
  }

  /** A digit group above the int64 range makes the whole parse fail. */
  lemma OverflowFails(s: string, i: nat)
    requires i < |Matches(s)| && DecimalValue(Matches(s)[i].digits) > INT64_MAX
    ensures Parse(Matches(s)) == Failure(OverflowException)
  {
    ParseMeaning(Matches(s));
  }

  // Formatting, the inverse of parsing.

  /** `long.Parse` reads back the digits of any non-negative `long`. */
  lemma ParseLongDigits(n: int64)
    requires n >= 0
    ensures ParseLong(NatDigits(n)) == Success(n)
  {
  }

  /** The elements one can write as "T:etag-dbid" and read back. */
  predicate Printable(tag: string, e: ChangeVectorElement) {
    1 <= |tag| <= MaxTagLength && (forall i :: 0 <= i < |tag| ==> IsWordChar(tag[i])) &&
    e.etag >= 0 && |e.databaseId| == DatabaseIdLength && NoLineBreak(e.databaseId)
  }

  function ElementText(tag: string, e: ChangeVectorElement): string
    requires e.etag >= 0
  {
    tag + ":" + NatDigits(e.etag) + "-" + e.databaseId
  }

  /** Elements written one after the other, separated by ", ". */
  function Format(tags: seq<string>, elements: seq<ChangeVectorElement>): string
    requires |tags| == |elements| && forall i :: 0 <= i < |elements| ==> Printable(tags[i], elements[i])
  {
    if elements == [] then ""
    else
      assert Printable(tags[0], elements[0]);
      if |elements| == 1 then ElementText(tags[0], elements[0])
      else ElementText(tags[0], elements[0]) + ", " + Format(tags[1..], elements[1..])
  }

  lemma {:induction false} WordRunOf(a: string, b: string)
    requires forall i :: 0 <= i < |a| ==> IsWordChar(a[i])
    requires b != [] && !IsWordChar(b[0])
    ensures WordRun(a + b) == |a|
  {
    if a != [] {
      assert (a + b)[1..] == a[1..] + b;
      WordRunOf(a[1..], b);
    } else {
      assert a + b == b;
    }
  }

  lemma {:induction false} DigitRunOf(a: string, b: string)
    requires AllDigits(a)
    requires b != [] && !IsDigit(b[0])
    ensures DigitRun(a + b) == |a|
  {
    if a != [] {
      assert (a + b)[1..] == a[1..] + b;
      DigitRunOf(a[1..], b);
    } else {
      assert a + b == b;
    }
  }

  /** The text after the tag: the etag digits, '-' and the id, then anything. */
  lemma AfterTag(digits: string, id: string, tail: string)
    requires digits != [] && AllDigits(digits) && |id| == DatabaseIdLength
    ensures var rest := digits + "-" + id + tail;
      DigitRun(rest) == |digits| && |digits| + 1 + DatabaseIdLength <= |rest| &&
      rest[|digits|] == '-' && rest[..|digits|] == digits &&
      rest[|digits| + 1..|digits| + 1 + DatabaseIdLength] == id
  {
    var rest := digits + "-" + id + tail;
    assert rest == digits + ("-" + id + tail);
    DigitRunOf(digits, "-" + id + tail);
  }

  /** The tag, then ':', then anything: the word run is the tag. */
  lemma TagShape(tag: string, rest: string)
    requires forall i :: 0 <= i < |tag| ==> IsWordChar(tag[i])
    ensures var s := tag + (":" + rest);
      WordRun(s) == |tag| && s[|tag|] == ':' && s[|tag| + 1..] == rest
  {
    WordRunOf(tag, ":" + rest);
  }

  /** A written element is matched from its first character, whatever follows it. */
  lemma MatchElement(tag: string, e: ChangeVectorElement, tail: string)
    requires Printable(tag, e)
    ensures MatchAt(ElementText(tag, e) + tail)
      == Some(Match(|ElementText(tag, e)|, NatDigits(e.etag), e.databaseId))
  {
    var digits := NatDigits(e.etag);
    var rest := digits + "-" + e.databaseId + tail;
    var s := ElementText(tag, e) + tail;
    assert s == tag + (":" + rest);
    TagShape(tag, rest);
    AfterTag(digits, e.databaseId, tail);
    assert AfterColon(rest) == Some(Match(|digits| + 1 + DatabaseIdLength, digits, e.databaseId));
  }

  /** Skipping the ", " separator: neither character starts a match. */
  lemma SkipSeparator(text: string)
    ensures Matches(", " + text) == Matches(text)
  {
    var s := ", " + text;
    assert WordRun(s) == 0;
    assert s[1..] == " " + text;
    assert WordRun(s[1..]) == 0;
    assert s[1..][1..] == text;
  }

  /** The scan over a written element followed by more text. */
  lemma MatchesElement(tag: string, e: ChangeVectorElement, tail: string)
    requires Printable(tag, e)
    ensures Matches(ElementText(tag, e) + tail)
      == [Match(|ElementText(tag, e)|, NatDigits(e.etag), e.databaseId)] + Matches(tail)
  {
    var s := ElementText(tag, e) + tail;
    MatchElement(tag, e, tail);
    assert s[|ElementText(tag, e)|..] == tail;
  }

  /** One step of the parse over a match whose digits read as `etag`. */
  lemma ParseStep(m: Match, rest: seq<Match>, etag: int64)
    requires ParseLong(m.digits) == Success(etag)
    ensures Parse([m] + rest) == Prefixed([ChangeVectorElement(m.databaseId, etag)], Parse(rest))
  {
    assert ([m] + rest)[1..] == rest;
  }

  /** The matches a formatted change vector is expected to give, one per element. */
  function WrittenMatches(tags: seq<string>, elements: seq<ChangeVectorElement>): seq<Match>
    requires |tags| == |elements| && forall i :: 0 <= i < |elements| ==> Printable(tags[i], elements[i])
  {
    if elements == [] then []
    else
      assert Printable(tags[0], elements[0]);
      [Match(|ElementText(tags[0], elements[0])|, NatDigits(elements[0].etag), elements[0].databaseId)]
        + WrittenMatches(tags[1..], elements[1..])
  }

  lemma {:induction false} MatchesFormat(tags: seq<string>, elements: seq<ChangeVectorElement>)
    requires |tags| == |elements|
    requires forall i :: 0 <= i < |elements| ==> Printable(tags[i], elements[i])
    ensures Matches(Format(tags, elements)) == WrittenMatches(tags, elements)
  {
    if elements != [] {
      assert Printable(tags[0], elements[0]);
      if |elements| == 1 {
        MatchesElement(tags[0], elements[0], "");
        assert Format(tags, elements) == ElementText(tags[0], elements[0]) + "";
      } else {
        var more := Format(tags[1..], elements[1..]);
        assert Format(tags, elements) == ElementText(tags[0], elements[0]) + (", " + more);
        MatchesElement(tags[0], elements[0], ", " + more);
        SkipSeparator(more);
        MatchesFormat(tags[1..], elements[1..]);
      }
    }
  }

  lemma {:induction false} ParseWritten(tags: seq<string>, elements: seq<ChangeVectorElement>)
    requires |tags| == |elements|
    requires forall i :: 0 <= i < |elements| ==> Printable(tags[i], elements[i])
    ensures Parse(WrittenMatches(tags, elements)) == Success(elements)
  {
    if elements != [] {
      var e := elements[0];
      assert Printable(tags[0], e);
      var m := Match(|ElementText(tags[0], e)|, NatDigits(e.etag), e.databaseId);
      ParseLongDigits(e.etag);
      ParseWritten(tags[1..], elements[1..]);
      ParseStep(m, WrittenMatches(tags[1..], elements[1..]), e.etag);
      assert elements == [e] + elements[1..];
    }
  }

  /** Parsing inverts formatting: `ToList` returns exactly the written elements, in order. */
  lemma FormatRoundTrip(tags: seq<string>, elements: seq<ChangeVectorElement>)
    requires |tags| == |elements|
    requires forall i :: 0 <= i < |elements| ==> Printable(tags[i], elements[i])
    ensures Parse(Matches(Format(tags, elements))) == Success(elements)
  {
    MatchesFormat(tags, elements);
    ParseWritten(tags, elements);
  }
}
