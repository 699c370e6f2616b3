/** Thousands grouping of a decimal numeral: a ',' before every full group of
    three digits counted from the right, never in front of the first digit. */
module Grouping {
  import opened Numerals

  /** Groups a digit string from the right: the last three digits form a
      group, the rest is grouped the same way. */
  function Group(d: string): (g: string)
    ensures |d| >= 1 ==> |g| == |d| + (|d| - 1) / 3
    decreases |d|
  {
    if |d| <= 3 then d else Group(d[..|d| - 3]) + "," + d[|d| - 3..]
  }

  /** Grouping of a `String.valueOf` text: a leading '-' is kept as it is and
      the digits after it are grouped. */
  function GroupSigned(s: string): (r: string)
    ensures |r| >= |s|
    ensures |s| > 0 && s[0] == '-' ==> r[0] == '-'
  {
    if |s| > 0 && s[0] == '-' then "-" + Group(s[1..]) else Group(s)
  }

  predicate NoCommas(s: string) {
    forall i :: 0 <= i < |s| ==> s[i] != ','
  }

  /** The text with every ',' taken out. */
  function RemoveCommas(s: string): (r: string)
    ensures NoCommas(r)
    ensures |r| <= |s|
  {
    if s == [] then [] else (if s[0] == ',' then [] else [s[0]]) + RemoveCommas(s[1..])
  }

  lemma {:induction false} RemoveCommasAppend(a: string, b: string)
    ensures RemoveCommas(a + b) == RemoveCommas(a) + RemoveCommas(b)
  {
    if a != [] {
      assert (a + b)[1..] == a[1..] + b;
      RemoveCommasAppend(a[1..], b);
    } else {
      assert a + b == b;
    }
  }

  lemma {:induction false} RemoveCommasNone(s: string)
    requires NoCommas(s)
    ensures RemoveCommas(s) == s
  {
    if s != [] {
      RemoveCommasNone(s[1..]);
    }
  }

  /** Grouping only inserts commas: taking them out gives the digits back. */
  lemma {:induction false} GroupRemoveCommas(d: string)
    requires NoCommas(d)
    ensures RemoveCommas(Group(d)) == d
    decreases |d|
  {
    if |d| <= 3 {
      RemoveCommasNone(d);
    } else {
      var p, l := d[..|d| - 3], d[|d| - 3..];
      assert NoCommas(p) && NoCommas(l) by {
        assert forall i :: 0 <= i < |p| ==> p[i] == d[i];
        assert forall i :: 0 <= i < |l| ==> l[i] == d[|d| - 3 + i];
      }
      GroupRemoveCommas(p);
      RemoveCommasAppend(Group(p) + ",", l);
      RemoveCommasAppend(Group(p), ",");
      RemoveCommasNone(l);
      assert p + l == d;
    }
  }

  /** The layout of a grouped numeral: its length, a ',' exactly where the
      distance to the end is a multiple of four (so every comma is followed
      by three digits and then a comma or the end, and the first group has
      one to three digits), digits everywhere else, a digit first. */
  lemma {:induction false} GroupLayout(d: string)
    requires |d| >= 1 && AllDigits(d)
    ensures |Group(d)| == |d| + (|d| - 1) / 3
    ensures forall i :: 0 <= i < |Group(d)| ==>
      (Group(d)[i] == ',' <==> (|Group(d)| - i) % 4 == 0)
    ensures forall i :: 0 <= i < |Group(d)| && Group(d)[i] != ',' ==> IsDigit(Group(d)[i])
    ensures IsDigit(Group(d)[0])
    decreases |d|
  {
    if |d| > 3 {
      var p, l := d[..|d| - 3], d[|d| - 3..];
      GroupLayout(p);
      GroupLayoutStep(Group(p), l);
    }
  }

  /** One step of `GroupLayout`: appending ',' and a group of three to a
      grouped numeral keeps the layout. */
  lemma GroupLayoutStep(gp: string, l: string)
    requires |l| == 3 && AllDigits(l)
    requires forall i :: 0 <= i < |gp| ==> (gp[i] == ',' <==> (|gp| - i) % 4 == 0)
    requires forall i :: 0 <= i < |gp| && gp[i] != ',' ==> IsDigit(gp[i])
    ensures var g := gp + "," + l;
      && (forall i :: 0 <= i < |g| ==> (g[i] == ',' <==> (|g| - i) % 4 == 0))
      && (forall i :: 0 <= i < |g| && g[i] != ',' ==> IsDigit(g[i]))
  {
    var g := gp + "," + l;
    forall i | 0 <= i < |g|
      ensures (g[i] == ',' <==> (|g| - i) % 4 == 0)
      ensures g[i] != ',' ==> IsDigit(g[i])
    {
      if i < |gp| {
        assert g[i] == gp[i];
      } else if i > |gp| {
        assert g[i] == l[i - |gp| - 1];
      }
    }
  }

  /** A numeral is left unchanged by grouping exactly when it has at most three digits. */
  lemma GroupUnchangedIff(d: string)
    requires |d| >= 1 && AllDigits(d)
    ensures Group(d) == d <==> |d| <= 3
  {
    if |d| > 3 {
      GroupLayout(d);
      assert |Group(d)| > |d|;
    }
  }

  lemma GroupSignedRemoveCommas(s: string)
    requires IntegerText(s)
    ensures RemoveCommas(GroupSigned(s)) == s
  {
    if s[0] == '-' {
      assert NoCommas(s[1..]) by {
        assert forall i :: 0 <= i < |s[1..]| ==> IsDigit(s[1..][i]);
      }
      RemoveCommasAppend("-", Group(s[1..]));
      GroupRemoveCommas(s[1..]);
      assert "-" + s[1..] == s;
    } else {
      assert NoCommas(s) by {
        assert forall i :: 0 <= i < |s| ==> IsDigit(s[i]);
      }
      GroupRemoveCommas(s);
    }
  }
}
