/**
 * The contact form's phone-number formatter: on every input event the field's
 * value is replaced by its digits (`replace(/\D/g, "")`), grouped in runs of
 * five separated by single spaces (`match(/.{1,5}/g).join(" ")`).
 */
module Phone {

  /** The `\d` class: ASCII digits only. */
  predicate IsDigit(c: char) {
    '0' <= c <= '9'
  }

  predicate AllDigits(s: string) {
    forall k | 0 <= k < |s| :: IsDigit(s[k])
  }

  /** `s` with every non-digit removed, the order of the digits kept. */
  function Digits(s: string): (d: string)
    ensures |d| <= |s|
    ensures AllDigits(d)
  {
    if s == [] then []
    else (if IsDigit(s[0]) then [s[0]] else []) + Digits(s[1..])
  }

  /** `s` with every space removed. */
  function WithoutSpaces(s: string): (r: string)
    ensures |r| <= |s|
    ensures ' ' !in r
  {
    if s == [] then []
    else (if s[0] == ' ' then [] else [s[0]]) + WithoutSpaces(s[1..])
  }

  /** The groups are written one after the other. */
  function Concat(groups: seq<string>): string {
    if groups == [] then [] else groups[0] + Concat(groups[1..])
  }

  /** The groups separated by single spaces (`Array.prototype.join(" ")`). */
  function JoinWithSpaces(groups: seq<string>): string {
    if groups == [] then []
    else if |groups| == 1 then groups[0]
    else groups[0] + " " + JoinWithSpaces(groups[1..])
  }

  /**
   * The matches of `/.{1,5}/g` on a string of digits: greedy runs of five,
   * the last one holding whatever is left.
   */
  function Groups(d: string): (gs: seq<string>)
    requires d != []
    ensures gs != []
    ensures forall k | 0 <= k < |gs| - 1 :: |gs[k]| == 5
    ensures 1 <= |gs[|gs| - 1]| <= 5
    ensures Concat(gs) == d
    decreases |d|
  {
    if |d| <= 5 then [d] else [d[..5]] + Groups(d[5..])
  }

  /**
   * The value the input handler writes back into the phone field: removing
   * its spaces gives back exactly the input's digits, in order, and it is
   * empty exactly when the input holds no digit.
   */
  function FormatPhone(s: string): (r: string)
    ensures WithoutSpaces(r) == Digits(s)
    ensures Digits(r) == Digits(s)
    ensures r == [] <==> Digits(s) == []
  {
    var d := Digits(s);
    if |d| > 0 then
      GroupedDigits(d);
      JoinWithSpaces(Groups(d))
    else d
  }

  /**
   * One character at a time: a digit is kept, anything else dropped. With
   * `DigitsAppend` this fixes `Digits` on every string.
   */
  lemma DigitsOfChar(c: char)
    ensures Digits([c]) == if IsDigit(c) then [c] else []
  {
  }

  /**
   * One character at a time: a space is dropped, anything else kept. With
   * `WithoutSpacesAppend` this fixes `WithoutSpaces` on every string.
   */
  lemma WithoutSpacesOfChar(c: char)
    ensures WithoutSpaces([c]) == if c == ' ' then [] else [c]
  {
  }

  lemma {:induction false} DigitsAppend(a: string, b: string)
    ensures Digits(a + b) == Digits(a) + Digits(b)
  {
    if a != [] {
      assert (a + b)[1..] == a[1..] + b;
      DigitsAppend(a[1..], b);
    } else {
      assert a + b == b;
    }
  }

  lemma {:induction false} WithoutSpacesAppend(a: string, b: string)
    ensures WithoutSpaces(a + b) == WithoutSpaces(a) + WithoutSpaces(b)
  {
    if a != [] {
      assert (a + b)[1..] == a[1..] + b;
      WithoutSpacesAppend(a[1..], b);
    } else {
      assert a + b == b;
    }
  }

  /** A string of digits is its own digit string, and holds no spaces. */
  lemma {:induction false} DigitsOfDigits(d: string)
    requires AllDigits(d)
    ensures Digits(d) == d && WithoutSpaces(d) == d
  {
    if d != [] {
      DigitsOfDigits(d[1..]);
      assert d == [d[0]] + d[1..];
    }
  }

  /** Joining groups of digits: the spaces are the only characters added. */
  lemma {:induction false} JoinedGroups(gs: seq<string>)
    requires forall k | 0 <= k < |gs| :: AllDigits(gs[k])
    ensures WithoutSpaces(JoinWithSpaces(gs)) == Concat(gs)
    ensures Digits(JoinWithSpaces(gs)) == Concat(gs)
  {
    if |gs| == 1 {
      DigitsOfDigits(gs[0]);
      assert Concat(gs) == gs[0] + Concat([]);
    } else if |gs| > 1 {
      JoinedGroups(gs[1..]);
      DigitsOfDigits(gs[0]);
      var rest := JoinWithSpaces(gs[1..]);
      WithoutSpacesAppend(gs[0] + " ", rest);
      WithoutSpacesAppend(gs[0], " ");
      DigitsAppend(gs[0] + " ", rest);
      DigitsAppend(gs[0], " ");
    }
  }

  lemma {:induction false} GroupsAreDigits(d: string)
    requires d != [] && AllDigits(d)
    ensures forall k | 0 <= k < |Groups(d)| :: AllDigits(Groups(d)[k])
  {
    if |d| > 5 {
      GroupsAreDigits(d[5..]);
      assert Groups(d) == [d[..5]] + Groups(d[5..]);
    }
  }

  /** Grouping a string of digits and joining the groups only adds spaces. */
  lemma GroupedDigits(d: string)
    requires d != [] && AllDigits(d)
    ensures WithoutSpaces(JoinWithSpaces(Groups(d))) == d
    ensures Digits(JoinWithSpaces(Groups(d))) == d
  {
    GroupsAreDigits(d);
    JoinedGroups(Groups(d));
  }

  /**
   * The formatted value is made of groups of digits, five to a group except
   * the last, which holds one to five.
   */
  lemma FormatPhoneGroups(s: string)
    ensures Digits(s) != [] ==>
      var gs := Groups(Digits(s));
      && FormatPhone(s) == JoinWithSpaces(gs)
      && (forall k | 0 <= k < |gs| - 1 :: |gs[k]| == 5)
      && 1 <= |gs[|gs| - 1]| <= 5
      && (forall k | 0 <= k < |gs| :: AllDigits(gs[k]))
  {
    var d := Digits(s);
    if d != [] {
      GroupsAreDigits(d);
      assert FormatPhone(s) == JoinWithSpaces(Groups(d));
    }
  }

  /** Positions six apart fall in the same place of consecutive groups. */
  lemma ShiftBySix(k: int)
    requires k >= 6
    ensures (k - 6) % 6 == k % 6 && (k - 6) / 6 == k / 6 - 1
  {
  }

  /** The layout of one step of the join: five digits, a space, then the rest. */
  predicate LaidOut(r: string, d: string) {
    forall k | 0 <= k < |r| ::
      (k % 6 == 5 ==> r[k] == ' ') && (k % 6 != 5 ==> 0 <= k - k / 6 < |d| && r[k] == d[k - k / 6])
  }

  /** Five digits and a space put in front of a laid-out rest keep the layout. */
  lemma LaidOutStep(d: string, rt: string)
    requires |d| > 5 && LaidOut(rt, d[5..])
    ensures LaidOut(d[..5] + " " + rt, d)
  {
    var r := d[..5] + " " + rt;
    forall k | 0 <= k < |r|
      ensures (k % 6 == 5 ==> r[k] == ' ') && (k % 6 != 5 ==> 0 <= k - k / 6 < |d| && r[k] == d[k - k / 6])
    {
      if k >= 6 {
        ShiftBySix(k);
        assert r[k] == rt[k - 6];
      }
    }
  }

  /**
   * Where the spaces fall: position k of the joined groups is a space exactly
   * when k + 1 is a multiple of six, and every other position holds the next
   * digit.
   */
  lemma {:induction false} JoinedGroupsLayout(d: string)
    requires d != []
    ensures |JoinWithSpaces(Groups(d))| == |d| + (|d| - 1) / 5
    ensures LaidOut(JoinWithSpaces(Groups(d)), d)
  {
    if |d| > 5 {
      var tail := d[5..];
      JoinedGroupsLayout(tail);
      var gs := Groups(d);
      assert gs == [d[..5]] + Groups(tail);
      assert gs[1..] == Groups(tail);
      assert JoinWithSpaces(gs) == d[..5] + " " + JoinWithSpaces(Groups(tail));
      LaidOutStep(d, JoinWithSpaces(Groups(tail)));
    }
  }

  lemma FormatPhoneLayout(s: string)
    ensures |FormatPhone(s)| == if Digits(s) == [] then 0 else |Digits(s)| + (|Digits(s)| - 1) / 5
    ensures LaidOut(FormatPhone(s), Digits(s))
  {
    if Digits(s) != [] {
      JoinedGroupsLayout(Digits(s));
    }
  }

  /** Re-formatting an already formatted value leaves it as it is. */
  lemma FormatPhoneIdempotent(s: string)
    ensures FormatPhone(FormatPhone(s)) == FormatPhone(s)
  {
    DigitsOfDigits(Digits(s));
  }

  /** A value that is already all digits is only grouped. */
  lemma FormatDigits(d: string)
    requires d != [] && AllDigits(d)
    ensures FormatPhone(d) == JoinWithSpaces(Groups(d))
  {
    DigitsOfDigits(d);
  }

  /** Thirteen digits make two full groups and a group of three. */
  lemma GroupsOfThirteen(d: string)
    requires d == "1234567890123"
    ensures Groups(d) == ["12345", "67890", "123"]
  {
    assert d[..5] == "12345" && d[5..] == "67890123";
    assert Groups(d[5..]) == ["67890", "123"] by {
      var t := d[5..];
      assert t[..5] == "67890" && t[5..] == "123";
    }
  }

  lemma JoinThree(a: string, b: string, c: string)
    ensures JoinWithSpaces([a, b, c]) == a + " " + b + " " + c
  {
    assert [a, b, c][1..] == [b, c];
    assert [b, c][1..] == [c];
    assert JoinWithSpaces([b, c]) == b + " " + c;
    assert a + " " + (b + " " + c) == a + " " + b + " " + c;
  }

  /** Thirteen digits are written as two full groups and a group of three. */
  lemma FormatPhoneExample(s: string)
    requires s == "1234567890123"
    ensures FormatPhone(s) == "12345 67890 123"
  {
    assert AllDigits(s);
    FormatDigits(s);
    GroupsOfThirteen(s);
    JoinThree("12345", "67890", "123");
    assert "12345" + " " + "67890" + " " + "123" == "12345 67890 123";
  }
}
