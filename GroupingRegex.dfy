/** What `s.replaceAll("\\B(?=(\\d{3})+(?!\\d))", ",")` does, stated from the
    meaning of that one pattern rather than by a regex engine, and the proof
    that on every `String.valueOf` text it is the recursive grouping. */
module GroupingRegex {
  import opened Numerals
  import opened Grouping

  /** The class `\w`: ASCII letters, digits and '_'. */
  predicate IsWordChar(c: char) {
    'a' <= c <= 'z' || 'A' <= c <= 'Z' || IsDigit(c) || c == '_'
  }

  /** `\b` at position `p` (between `s[p-1]` and `s[p]`): exactly one side is a
      word character; the outside of the text counts as a non-word character. */
  predicate WordBoundaryAt(s: string, p: nat)
    requires p <= |s|
  {
    (p > 0 && IsWordChar(s[p - 1])) != (p < |s| && IsWordChar(s[p]))
  }

  /** `(\d{3})+(?!\d)` matches at the start of `t`: one or more groups of three
      digits, after some number of which no digit follows. */
  predicate TriplesThenNoDigit(t: string)
    decreases |t|
  {
    && |t| >= 3
    && IsDigit(t[0]) && IsDigit(t[1]) && IsDigit(t[2])
    && (|t| == 3 || !IsDigit(t[3]) || TriplesThenNoDigit(t[3..]))
  }

  /** The whole zero-width pattern `\B(?=(\d{3})+(?!\d))` (`Regex.CASH_PRIZE_REGEX`)
      matches at position `p`; a match always lies between a word character
      and a digit. */
  predicate MatchesAt(s: string, p: nat)
    requires p <= |s|
    ensures MatchesAt(s, p) ==> 0 < p < |s| && IsWordChar(s[p - 1]) && IsDigit(s[p])
  {
    !WordBoundaryAt(s, p) && TriplesThenNoDigit(s[p..])
  }

  /** `replaceAll` with a zero-width pattern and replacement ",": a ',' is put
      at every position from `p` on where the pattern matches (after an empty
      match the search resumes one character later), the characters are kept. */
  function ReplaceAllFrom(s: string, p: nat): string
    requires p <= |s|
    decreases |s| - p
  {
    (if MatchesAt(s, p) then "," else "") + (if p < |s| then [s[p]] + ReplaceAllFrom(s, p + 1) else "")
  }

  /** The characters are kept and only commas are inserted. */
  function ReplaceAll(s: string): (r: string)
    ensures RemoveCommas(r) == RemoveCommas(s)
  {
    ReplaceAllFromCommas(s, 0);
    assert s[0..] == s;
    ReplaceAllFrom(s, 0)
  }

  lemma {:induction false} ReplaceAllFromCommas(s: string, p: nat)
    requires p <= |s|
    ensures RemoveCommas(ReplaceAllFrom(s, p)) == RemoveCommas(s[p..])
    decreases |s| - p
  {
    var mark := if MatchesAt(s, p) then "," else "";
    if p < |s| {
      var rest := ReplaceAllFrom(s, p + 1);
      ReplaceAllFromCommas(s, p + 1);
      RemoveCommasAppend(mark, [s[p]] + rest);
      RemoveCommasAppend([s[p]], rest);
      RemoveCommasAppend([s[p]], s[p + 1..]);
      assert s[p..] == [s[p]] + s[p + 1..];
    } else {
      RemoveCommasAppend(mark, "");
      assert mark + "" == mark;
    }
  }

  /** On digits only, the lookahead holds exactly when the rest of the text
      is a positive multiple of three digits long. */
  lemma {:induction false} TriplesOnDigits(t: string)
    requires AllDigits(t)
    ensures TriplesThenNoDigit(t) <==> |t| >= 3 && |t| % 3 == 0
    decreases |t|
  {
    if |t| > 3 {
      TriplesOnDigits(t[3..]);
    }
  }

  /** A ',' before every position whose remaining length is a positive
      multiple of three: grouping of the digits after a first digit. */
  function CommaBeforeTriples(t: string): string
    decreases |t|
  {
    if t == [] then [] else (if |t| % 3 == 0 then "," else "") + [t[0]] + CommaBeforeTriples(t[1..])
  }

  lemma {:induction false} CommaBeforeTriplesAppend(a: string, b: string)
    requires |b| % 3 == 0
    ensures CommaBeforeTriples(a + b) == CommaBeforeTriples(a) + CommaBeforeTriples(b)
    decreases |a|
  {
    if a == [] {
      assert a + b == b;
    } else {
      assert (a + b)[1..] == a[1..] + b;
      CommaBeforeTriplesAppend(a[1..], b);
    }
  }

  lemma CommaBeforeTriplesShort(t: string)
    requires |t| < 3
    ensures CommaBeforeTriples(t) == t
  {
    if |t| == 1 {
      CommaBeforeTriplesOne(t);
    } else if |t| == 2 {
      CommaBeforeTriplesOne(t[1..]);
      assert [t[0]] + t[1..] == t;
    }
  }

  lemma CommaBeforeTriplesOne(t: string)
    requires |t| == 1
    ensures CommaBeforeTriples(t) == t
  {
    assert t[1..] == [];
  }

  lemma CommaBeforeTriplesTriple(l: string)
    requires |l| == 3
    ensures CommaBeforeTriples(l) == "," + l
  {
    CommaBeforeTriplesShort(l[1..]);
    assert [l[0]] + l[1..] == l;
  }

  /** The recursive grouping, read from the left: the first digit, then a ','
      before every later full group of three. */
  lemma {:induction false} GroupFromTheLeft(d: string)
    requires |d| >= 1
    ensures Group(d) == [d[0]] + CommaBeforeTriples(d[1..])
    decreases |d|
  {
    if |d| <= 3 {
      CommaBeforeTriplesShort(d[1..]);
      assert [d[0]] + d[1..] == d;
    } else {
      var p, l := d[..|d| - 3], d[|d| - 3..];
      GroupFromTheLeft(p);
      assert Group(d) == Group(p) + "," + l;
      GroupFromTheLeftStep(d, p, l);
    }
  }

  /** The inductive step of `GroupFromTheLeft`: one more group of three. */
  lemma GroupFromTheLeftStep(d: string, p: string, l: string)
    requires |d| > 3 && p == d[..|d| - 3] && l == d[|d| - 3..]
    ensures ([p[0]] + CommaBeforeTriples(p[1..])) + "," + l == [d[0]] + CommaBeforeTriples(d[1..])
  {
    assert d[1..] == p[1..] + l;
    CommaBeforeTriplesAppend(p[1..], l);
    CommaBeforeTriplesTriple(l);
    assert d[0] == p[0];
    calc {
      [d[0]] + CommaBeforeTriples(d[1..]);
      [p[0]] + (CommaBeforeTriples(p[1..]) + ("," + l));
      ([p[0]] + CommaBeforeTriples(p[1..])) + "," + l;
    }
  }

  /** Inside a run of digits that reaches the end of the text, the regex puts
      the commas where `CommaBeforeTriples` does. */
  lemma {:induction false} ReplaceAllInDigits(s: string, p: nat)
    requires 1 <= p <= |s|
    requires IsDigit(s[p - 1]) && AllDigits(s[p..])
    ensures ReplaceAllFrom(s, p) == CommaBeforeTriples(s[p..])
    decreases |s| - p
  {
    if p < |s| {
      var t := s[p..];
      assert t[0] == s[p];
      assert !WordBoundaryAt(s, p);
      TriplesOnDigits(t);
      assert t[1..] == s[p + 1..];
      assert AllDigits(t[1..]) by {
        assert forall i :: 0 <= i < |t[1..]| ==> t[1..][i] == t[i + 1];
      }
      ReplaceAllInDigits(s, p + 1);
      assert ReplaceAllFrom(s, p) == (if |t| % 3 == 0 then "," else "") + ([s[p]] + ReplaceAllFrom(s, p + 1));
    } else {
      assert s[p..] == [];
    }
  }

  /** On every `String.valueOf` text, the source's `replaceAll` is the
      recursive grouping: no comma at the start, none right after the '-'. */
  lemma GroupSignedIsReplaceAll(s: string)
    requires IntegerText(s)
    ensures GroupSigned(s) == ReplaceAll(s)
  {
    if s[0] == '-' {
      var d := s[1..];
      assert !TriplesThenNoDigit(s[0..]);
      assert !MatchesAt(s, 0);
      assert IsDigit(d[0]);
      assert WordBoundaryAt(s, 1);
      assert !MatchesAt(s, 1);
      assert AllDigits(s[2..]) by {
        assert forall i :: 0 <= i < |s[2..]| ==> s[2..][i] == d[i + 1];
      }
      ReplaceAllInDigits(s, 2);
      assert s[2..] == d[1..];
      GroupFromTheLeft(d);
      assert ReplaceAllFrom(s, 1) == [s[1]] + ReplaceAllFrom(s, 2);
      assert ReplaceAll(s) == [s[0]] + ReplaceAllFrom(s, 1);
    } else {
      assert WordBoundaryAt(s, 0);
      assert AllDigits(s[1..]) by {
        assert forall i :: 0 <= i < |s[1..]| ==> s[1..][i] == s[i + 1];
      }
      ReplaceAllInDigits(s, 1);
      GroupFromTheLeft(s);
    }
  }
}
