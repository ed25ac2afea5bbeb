/**
 * The masking engine of the `Mask` input component: one normalizer per mask
 * type, each taking the whole current text of the field and returning the
 * text to display (`maskedValue`) and the undecorated value (`raw`); the
 * dispatcher `Formatter`; the table of display templates `Pattern`; and the
 * completion test the component applies to the displayed text.
 */
module Mask {
  import opened StringOps

  /** `maskType`: 'phone' | 'credit-card' | 'zip-code' | 'time' | 'iban'. */
  datatype MaskType = Phone | CreditCard | ZipCode | Time | Iban

  /** `INormalizeReturn`: the text shown in the field and the value without decoration. */
  datatype NormalizeReturn = NormalizeReturn(maskedValue: string, raw: string)

  // ---------------------------------------------------------------------------
  // Phone: +380 (00) 000 00 00
  // ---------------------------------------------------------------------------

  /** The bounds of the five capture groups of `/^(\d{0,3})(\d{0,2})(\d{0,3})(\d{0,2})(\d{0,2})$/`. */
  const PhoneGroupSizes: seq<nat> := [3, 2, 3, 2, 2]

  /** `${group ? sep : ''}${group}`: a capture with its separator before it, the separator only when the capture is not empty. */
  function Part(sep: string, group: string): string
  {
    (if group == [] then [] else sep) + group
  }

  /**
   * `phoneNormalize`. The first capture is the country code the display
   * already shows as "+380", so outside the short-entry case it is dropped.
   */
  function PhoneNormalize(value: string): (r: NormalizeReturn)
    ensures r.maskedValue == [] <==> r.raw == []
    ensures r.maskedValue != [] ==> "+380" <= r.maskedValue
    ensures r.raw != [] ==> "380" <= r.raw
  {
    var phone := Digits(value);
    var m := GreedySplit(phone, PhoneGroupSizes);
    if m.Some? && |value| < 5 && |value| != 3 then
      NormalizeReturn("+380 (" + m.value[0], "380" + m.value[0])
    else if |value| == 3 then
      NormalizeReturn("", "")
    else if m.Some? then
      NormalizeReturn(PhoneDisplay(m.value), PhoneRaw(m.value))
    else
      NormalizeReturn("", "")
  }

  /** The general-case display: "+380", then each capture after the first with its separator. */
  function PhoneDisplay(g: seq<string>): string
    requires |g| == 5
  {
    "+380" + Part(" (", g[1]) + Part(") ", g[2]) + Part(" ", g[3]) + Part(" ", g[4])
  }

  /**
   * The general-case raw value: "380" and the captures after the first. The
   * `${match[i] ? '' : ''}` pieces of the source's template add nothing and
   * are left out.
   */
  function PhoneRaw(g: seq<string>): string
    requires |g| == 5
  {
    "380" + g[1] + g[2] + g[3] + g[4]
  }

  /** The captures of the phone pattern on a digit string of at most twelve digits: cuts at 3, 5, 8 and 10. */
  function PhoneCapturesOf(d: string): (g: seq<string>)
    ensures |g| == 5
  {
    var c1, c2, c3, c4 := Min(3, |d|), Min(5, |d|), Min(8, |d|), Min(10, |d|);
    [d[..c1], d[c1..c2], d[c2..c3], d[c3..c4], d[c4..]]
  }

  lemma {:induction false} Concat5(g: seq<string>)
    requires |g| == 5
    ensures Concat(g) == g[0] + g[1] + g[2] + g[3] + g[4]
  {
    assert g[4..][1..] == [];
    assert Concat(g[4..]) == g[4];
    assert g[3..][1..] == g[4..];
    assert Concat(g[3..]) == g[3] + g[4];
    assert g[2..][1..] == g[3..];
    assert Concat(g[2..]) == g[2] + g[3] + g[4];
    assert g[1..][1..] == g[2..];
    assert Concat(g[1..]) == g[1] + g[2] + g[3] + g[4];
  }

  lemma PhoneCapturesFit(d: string)
    requires |d| <= 12
    ensures Fits(d, PhoneGroupSizes, PhoneCapturesOf(d))
  {
    var g := PhoneCapturesOf(d);
    Concat5(g);
    assert g[0] + g[1] + g[2] + g[3] + g[4] == d;
  }

  lemma PhoneCapturesGreedy(d: string)
    ensures Greedy(PhoneGroupSizes, PhoneCapturesOf(d))
  {
    var g := PhoneCapturesOf(d);
    forall i, j | 0 <= i < j < 5 && g[j] != []
      ensures |g[i]| == PhoneGroupSizes[i]
    {
    }
  }

  /**
   * What the anchored phone pattern captures: a digit string of at most 12
   * digits is cut at offsets 3, 5, 8 and 10 (each clamped to its length);
   * a longer one does not match.
   */
  lemma PhoneCaptures(d: string)
    ensures |d| > 12 <==> GreedySplit(d, PhoneGroupSizes).None?
    ensures |d| <= 12 ==> GreedySplit(d, PhoneGroupSizes) == Some(PhoneCapturesOf(d))
  {
    assert Sum(PhoneGroupSizes) == 12;
    if |d| <= 12 {
      PhoneCapturesFit(d);
      PhoneCapturesGreedy(d);
      GreedySplitUnique(d, PhoneGroupSizes, PhoneCapturesOf(d));
    }
  }

  lemma DigitsAppend(a: string, b: string)
    ensures Digits(a + b) == Digits(a) + Digits(b)
  {
    FilterConcat(IsDigit, a, b);
  }

  lemma DigitsOfDigits(s: string)
    requires AllDigits(s)
    ensures Digits(s) == s
  {
    FilterKeepsAll(IsDigit, s);
  }

  /** A separator without digits contributes nothing to the digits of a capture with its separator. */
  lemma PartDigits(sep: string, group: string)
    requires Digits(sep) == [] && AllDigits(group)
    ensures Digits(Part(sep, group)) == group
  {
    DigitsOfDigits(group);
    DigitsAppend(if group == [] then [] else sep, group);
  }

  /** The digits of the general-case display are "380" followed by the captures after the first. */
  lemma PhoneDisplayDigits(g: seq<string>)
    requires |g| == 5
    requires AllDigits(g[1]) && AllDigits(g[2]) && AllDigits(g[3]) && AllDigits(g[4])
    ensures Digits(PhoneDisplay(g)) == PhoneRaw(g)
  {
    var x1 := "+380" + Part(" (", g[1]);
    var x2 := x1 + Part(") ", g[2]);
    var x3 := x2 + Part(" ", g[3]);
    assert Digits("+380") == "380" && Digits(" (") == [] && Digits(") ") == [] && Digits(" ") == [];
    PartDigits(" (", g[1]);
    PartDigits(") ", g[2]);
    PartDigits(" ", g[3]);
    PartDigits(" ", g[4]);
    DigitsAppend("+380", Part(" (", g[1]));
    DigitsAppend(x1, Part(") ", g[2]));
    DigitsAppend(x2, Part(" ", g[3]));
    DigitsAppend(x3, Part(" ", g[4]));
  }

  /** Input of exactly three characters clears the field, whatever the characters are. */
  lemma PhoneLengthThreeClears(value: string)
    requires |value| == 3
    ensures PhoneNormalize(value) == NormalizeReturn("", "")
  {
    PhoneCaptures(Digits(value));
  }

  /** More than twelve digits make the anchored match fail, and the field is cleared. */
  lemma PhoneTooManyDigitsClears(value: string)
    requires |Digits(value)| > 12
    ensures PhoneNormalize(value) == NormalizeReturn("", "")
  {
    PhoneCaptures(Digits(value));
  }

  /**
   * Short entry (fewer than five characters, other than three): the display
   * is the "+380 (" prefix followed by the first (at most three) digits, and
   * the raw value is "380" followed by the same digits; so empty input gives
   * "+380 (" and "380".
   */
  lemma PhoneShortEntry(value: string)
    requires |value| < 5 && |value| != 3
    ensures var d := Digits(value);
      PhoneNormalize(value) == NormalizeReturn("+380 (" + d[..Min(3, |d|)], "380" + d[..Min(3, |d|)])
  {
    PhoneCaptures(Digits(value));
  }

  /**
   * General case (five characters or more, at most twelve digits): the
   * display is "+380" followed by the captures after the first, each with its
   * separator, and the raw value is "380" followed by the same captures.
   */
  lemma PhoneGeneralForm(value: string)
    requires |value| >= 5 && |Digits(value)| <= 12
    ensures var g := PhoneCapturesOf(Digits(value));
      PhoneNormalize(value) == NormalizeReturn(PhoneDisplay(g), PhoneRaw(g))
  {
    PhoneCaptures(Digits(value));
  }

  /** In the general case the raw value is "380" followed by every digit after the first three. */
  lemma PhoneGeneralRaw(value: string)
    requires |value| >= 5 && |Digits(value)| <= 12
    ensures var d := Digits(value);
      PhoneNormalize(value).raw == "380" + d[Min(3, |d|)..]
  {
    var d := Digits(value);
    PhoneGeneralForm(value);
    PhoneTail(d);
  }

  lemma PhoneTail(d: string)
    ensures PhoneRaw(PhoneCapturesOf(d)) == "380" + d[Min(3, |d|)..]
  {
    var c1, c2, c3, c4 := Min(3, |d|), Min(5, |d|), Min(8, |d|), Min(10, |d|);
    assert d[c1..] == d[c1..c2] + d[c2..c3] + d[c3..c4] + d[c4..];
  }

  lemma ShortDisplayDigits(first: string)
    requires AllDigits(first)
    ensures Digits("+380 (" + first) == "380" + first
  {
    assert Digits("+380 (") == "380";
    DigitsOfDigits(first);
    DigitsAppend("+380 (", first);
  }

  lemma PhoneShortEntryDigits(value: string)
    requires |value| < 5 && |value| != 3
    ensures PhoneNormalize(value).raw == Digits(PhoneNormalize(value).maskedValue)
  {
    var d := Digits(value);
    var first := d[..Min(3, |d|)];
    PhoneShortEntry(value);
    assert AllDigits(first);
    ShortDisplayDigits(first);
  }

  lemma PhoneCapturesAreDigits(d: string)
    requires AllDigits(d)
    ensures var g := PhoneCapturesOf(d);
      AllDigits(g[1]) && AllDigits(g[2]) && AllDigits(g[3]) && AllDigits(g[4])
  {
  }

  lemma PhoneGeneralDigits(value: string)
    requires |value| >= 5 && |Digits(value)| <= 12
    ensures PhoneNormalize(value).raw == Digits(PhoneNormalize(value).maskedValue)
  {
    var d := Digits(value);
    var g := PhoneCapturesOf(d);
    var r := PhoneNormalize(value);
    assert r.maskedValue == PhoneDisplay(g) && r.raw == PhoneRaw(g) by {
      PhoneGeneralForm(value);
    }
    assert Digits(PhoneDisplay(g)) == PhoneRaw(g) by {
      PhoneCapturesAreDigits(d);
      PhoneDisplayDigits(g);
    }
  }

  /** In every branch the raw value is exactly the digits of the display, in order. */
  lemma PhoneRawIsDisplayedDigits(value: string)
    ensures PhoneNormalize(value).raw == Digits(PhoneNormalize(value).maskedValue)
  {
    if |value| == 3 {
      PhoneLengthThreeClears(value);
    } else if |Digits(value)| > 12 {
      PhoneTooManyDigitsClears(value);
    } else if |value| < 5 {
      PhoneShortEntryDigits(value);
    } else {
      PhoneGeneralDigits(value);
    }
  }

  /** The length of the general-case display: "+380" and each non-empty group with its separator. */
  lemma PhoneGeneralLength(value: string)
    requires |value| >= 5 && |Digits(value)| <= 12
    ensures var d := Digits(value);
      |PhoneNormalize(value).maskedValue| ==
        4 + (if |d| > 3 then |d| - 3 + 2 else 0) + (if |d| > 5 then 2 else 0)
          + (if |d| > 8 then 1 else 0) + (if |d| > 10 then 1 else 0)
  {
    PhoneCaptures(Digits(value));
  }

  /** The phone display never outgrows its template, whatever the input. */
  lemma PhoneFitsPattern(value: string)
    ensures |PhoneNormalize(value).maskedValue| <= |Pattern(Phone)|
  {
    var d := Digits(value);
    PhoneCaptures(d);
    if |value| >= 5 && |d| <= 12 {
      PhoneGeneralLength(value);
    }
  }

  /** A phone field is complete exactly when five or more characters hold twelve digits. */
  lemma PhoneComplete(value: string)
    ensures IsComplete(PhoneNormalize(value).maskedValue, Phone) <==> |value| >= 5 && |Digits(value)| == 12
  {
    var d := Digits(value);
    PhoneCaptures(d);
    if |value| >= 5 && |d| <= 12 {
      PhoneGeneralLength(value);
    }
  }

  /**
   * Once the display holds at least one digit after the country code, and the
   * input has at least five characters, feeding it back to the normalizer (as
   * the field does on the next edit) gives the same display and raw value.
   */
  lemma PhoneStable(value: string)
    requires |value| >= 5 && 4 <= |Digits(value)| <= 12
    ensures PhoneNormalize(PhoneNormalize(value).maskedValue) == PhoneNormalize(value)
  {
    var d := Digits(value);
    var r := PhoneNormalize(value);
    PhoneGeneralRaw(value);
    PhoneRawIsDisplayedDigits(value);
    PhoneGeneralLength(value);
    var d' := Digits(r.maskedValue);
    assert d' == "380" + d[3..];
    PhoneCaptures(d);
    PhoneCaptures(d');
    var g, g' := PhoneCapturesOf(d), PhoneCapturesOf(d');
    assert g'[1] == g[1] && g'[2] == g[2] && g'[3] == g[3] && g'[4] == g[4];
  }

  /** Why `PhoneStable` needs five characters: a short entry can change when fed back in. */
  lemma PhoneShortEntryNotStable()
    ensures PhoneNormalize("1234").maskedValue == "+380 (123"
    ensures PhoneNormalize("+380 (123").maskedValue == "+380 (12) 3"
  {
    PhoneShortExample("1234");
    PhoneFedBackExample("+380 (123");
  }

  lemma PhoneShortExample(v: string)
    requires v == "1234"
    ensures PhoneNormalize(v).maskedValue == "+380 (123"
  {
    DigitsOfDigits(v);
    PhoneShortEntry(v);
    assert v[..Min(3, |v|)] == "123";
  }

  lemma PhoneFedBackExample(w: string)
    requires w == "+380 (123"
    ensures PhoneNormalize(w).maskedValue == "+380 (12) 3"
  {
    var d := "380" + "123";
    FedBackDigits(w, d);
    PhoneGeneralForm(w);
    var g := ["380", "12", "3", "", ""];
    FedBackCaptures(d, g);
    FedBackDisplay(g);
  }

  lemma FedBackCaptures(d: string, g: seq<string>)
    requires d == "380" + "123" && g == ["380", "12", "3", "", ""]
    ensures PhoneCapturesOf(d) == g
  {
    assert d[..3] == "380" && d[3..5] == "12" && d[5..6] == "3" && d[6..6] == [] && d[6..] == [];
  }

  lemma FedBackDisplay(g: seq<string>)
    requires g == ["380", "12", "3", "", ""]
    ensures PhoneDisplay(g) == "+380 (12) 3"
  {
    assert Part(" (", g[1]) == " (12" && Part(") ", g[2]) == ") 3";
    assert Part(" ", g[3]) == [] && Part(" ", g[4]) == [];
    assert "+380" + " (12" + ") 3" == "+380 (12) 3";
  }

  lemma FedBackDigits(w: string, d: string)
    requires w == "+380 (123" && d == "380" + "123"
    ensures Digits(w) == d
  {
    var tail := " (" + "123";
    assert w == "+" + ("380" + tail);
    assert Digits(tail) == "123" by {
      DigitsAppend(" (", "123");
      assert Digits(" (") == [];
      DigitsOfDigits("123");
    }
    assert Digits("380" + tail) == d by {
      DigitsAppend("380", tail);
      DigitsOfDigits("380");
    }
    DigitsAppend("+", "380" + tail);
    assert Digits("+") == [];
  }

  // ---------------------------------------------------------------------------
  // Credit card: 0000 0000 0000 0000
  // ---------------------------------------------------------------------------

  /** `creditCardNormalize`: the digits, cut into fours joined by spaces. */
  function CreditCardNormalize(value: string): (r: NormalizeReturn)
    ensures r.raw == Digits(value)
    ensures Strip(r.maskedValue, ' ') == r.raw
    ensures r.maskedValue == [] <==> r.raw == []
  {
    var maskedValue := Grouped(Digits(value), 4, ' ');
    var raw := Digits(value);
    GroupedStrip(raw, 4, ' ');
    GroupedLength(raw, 4, ' ');
    NormalizeReturn(maskedValue, raw)
  }

  /** Position `k` of a grouping into fours: a space at every fifth place, character `k - k / 5` elsewhere. */
  lemma GroupedAtFours(s: string, sep: char, k: nat)
    requires k < |Grouped(s, 4, sep)|
    ensures k % 5 != 4 ==> k - k / 5 < |s|
    ensures Grouped(s, 4, sep)[k] == if k % 5 == 4 then sep else s[k - k / 5]
  {
    // GroupedAt counts positions with Stride(q, w), which StrideIsProduct shows is q * w.
    StrideIsProduct(k / 5, 5);
    StrideIsProduct(k / 5, 4);
    GroupedAt(s, 4, sep, k / 5, k % 5, k, k - k / 5);
  }

  /**
   * The credit-card display is the raw digits cut left to right into fours:
   * every fifth character is a space, the others are the digits in order,
   * and there is one space fewer than there are chunks.
   */
  lemma CreditCardLayout(value: string, k: nat)
    ensures var r := CreditCardNormalize(value);
      |r.maskedValue| == if r.raw == [] then 0 else |r.raw| + (|r.raw| - 1) / 4
    ensures var r := CreditCardNormalize(value);
      k < |r.maskedValue| ==> k % 5 != 4 ==> k - k / 5 < |r.raw|
    ensures var r := CreditCardNormalize(value);
      k < |r.maskedValue| ==> r.maskedValue[k] == if k % 5 == 4 then ' ' else r.raw[k - k / 5]
  {
    var d := Digits(value);
    GroupedLength(d, 4, ' ');
    if k < |Grouped(d, 4, ' ')| {
      GroupedAtFours(d, ' ', k);
    }
  }

  /** Normalizing the credit-card display again changes nothing. */
  lemma CreditCardIdempotent(value: string)
    ensures CreditCardNormalize(CreditCardNormalize(value).maskedValue) == CreditCardNormalize(value)
  {
    var d := Digits(value);
    GroupedFilter(IsDigit, d, 4, ' ');
    DigitsIdempotent(value);
  }

  /** A credit-card field is complete exactly when it holds sixteen digits; up to sixteen digits fit the template. */
  lemma CreditCardComplete(value: string)
    ensures IsComplete(CreditCardNormalize(value).maskedValue, CreditCard) <==> |Digits(value)| == 16
    ensures |Digits(value)| <= 16 ==> |CreditCardNormalize(value).maskedValue| <= |Pattern(CreditCard)|
  {
    GroupedLength(Digits(value), 4, ' ');
  }

  // ---------------------------------------------------------------------------
  // Zip code: 00000
  // ---------------------------------------------------------------------------

  /** `zipCodeNormalize`: the digits, undecorated. */
  function ZipCodeNormalize(value: string): (r: NormalizeReturn)
    ensures r.maskedValue == Digits(value)
    ensures r.raw == r.maskedValue
    ensures |r.maskedValue| <= |value|
  {
    var maskedValue := Digits(value);
    NormalizeReturn(maskedValue, maskedValue)
  }

  /** Normalizing the zip-code display again changes nothing. */
  lemma ZipCodeIdempotent(value: string)
    ensures ZipCodeNormalize(ZipCodeNormalize(value).maskedValue) == ZipCodeNormalize(value)
  {
    DigitsIdempotent(value);
  }

  /** A zip-code field is complete exactly when it holds five digits; up to five digits fit the template. */
  lemma ZipCodeComplete(value: string)
    ensures IsComplete(ZipCodeNormalize(value).maskedValue, ZipCode) <==> |Digits(value)| == 5
    ensures |Digits(value)| <= 5 ==> |ZipCodeNormalize(value).maskedValue| <= |Pattern(ZipCode)|
  {
  }

  // ---------------------------------------------------------------------------
  // Time: 00:00:00
  // ---------------------------------------------------------------------------

  /** `timeNormalize`: the digits cut into pairs joined by colons; the raw value is the display without colons. */
  function TimeNormalize(value: string): (r: NormalizeReturn)
    ensures r.raw == Digits(value)
    ensures r.maskedValue == [] <==> r.raw == []
  {
    var maskedValue := Grouped(Digits(value), 2, ':');
    var raw := Strip(maskedValue, ':');
    GroupedStrip(Digits(value), 2, ':');
    GroupedLength(Digits(value), 2, ':');
    NormalizeReturn(maskedValue, raw)
  }

  /** The time display: every third character is a colon, the others are the digits in order. */
  lemma TimeLayout(value: string, k: nat)
    ensures var r := TimeNormalize(value);
      |r.maskedValue| == if r.raw == [] then 0 else |r.raw| + (|r.raw| - 1) / 2
    ensures var r := TimeNormalize(value);
      k < |r.maskedValue| ==> k % 3 != 2 ==> k - k / 3 < |r.raw|
    ensures var r := TimeNormalize(value);
      k < |r.maskedValue| ==> r.maskedValue[k] == if k % 3 == 2 then ':' else r.raw[k - k / 3]
  {
    var d := Digits(value);
    GroupedLength(d, 2, ':');
    if k < |Grouped(d, 2, ':')| {
      // Stride(q, w) is q * w, as in GroupedAtFours.
      StrideIsProduct(k / 3, 3);
      StrideIsProduct(k / 3, 2);
      GroupedAt(d, 2, ':', k / 3, k % 3, k, k - k / 3);
    }
  }

  /** Normalizing the time display again changes nothing. */
  lemma TimeIdempotent(value: string)
    ensures TimeNormalize(TimeNormalize(value).maskedValue) == TimeNormalize(value)
  {
    var d := Digits(value);
    GroupedFilter(IsDigit, d, 2, ':');
    DigitsIdempotent(value);
  }

  /** A time field is complete exactly when it holds six digits; up to six digits fit the template. */
  lemma TimeComplete(value: string)
    ensures IsComplete(TimeNormalize(value).maskedValue, Time) <==> |Digits(value)| == 6
    ensures |Digits(value)| <= 6 ==> |TimeNormalize(value).maskedValue| <= |Pattern(Time)|
  {
    GroupedLength(Digits(value), 2, ':');
  }

  // ---------------------------------------------------------------------------
  // IBAN: AA00 0000 0000 0000 0000 0000 000
  // ---------------------------------------------------------------------------

  /** `value.slice(0, 2) + value.slice(2, 33).replace(/[^\d]/g, '')`: the country code as typed, then the digits at indices 2 to 32. */
  function IbanBody(value: string): (r: string)
    requires |value| >= 2
    ensures 2 <= |r| <= 33 && r[..2] == value[..2] && AllDigits(r[2..])
  {
    value[..2] + Digits(value[2..Min(|value|, 33)])
  }

  /** `ibanNormalize`: three bands by the length of the input. */
  function IbanNormalize(value: string): (r: NormalizeReturn)
    ensures forall i :: 0 <= i < |r.raw| ==> r.raw[i] != ' '
    ensures |r.raw| <= 33
    ensures |value| >= 35 ==> r.maskedValue == [] && r.raw == []
  {
    var maskedValue :=
      if |value| < 3 then UpperAscii(NonDigits(value))
      else if |value| < 35 then Grouped(IbanBody(value), 4, ' ')
      else [];
    var raw := Strip(maskedValue, ' ');
    if 3 <= |value| < 35 then
      GroupedFilter(c => c != ' ', IbanBody(value), 4, ' ');
      NormalizeReturn(maskedValue, raw)
    else
      NormalizeReturn(maskedValue, raw)
  }

  /**
   * While the country code is typed (fewer than three characters), the display
   * holds no digit and no lower-case letter: the typed digits are dropped and
   * the letters upper-cased.
   */
  lemma IbanCountryCodeBand(value: string)
    requires |value| < 3
    ensures var r := IbanNormalize(value);
      && |r.maskedValue| == |NonDigits(value)| <= 2
      && (forall i :: 0 <= i < |r.maskedValue| ==> r.maskedValue[i] == UpperChar(NonDigits(value)[i]))
      && (forall i :: 0 <= i < |r.maskedValue| ==> !IsDigit(r.maskedValue[i]))
      && (forall i :: 0 <= i < |r.maskedValue| ==> !('a' <= r.maskedValue[i] <= 'z'))
  {
  }

  /**
   * Middle band (3 to 34 characters): the display is the country code as
   * typed followed by the digits at indices 2 to 32, cut into fours joined by
   * spaces; the raw value is the same text without any space.
   */
  lemma IbanAccountBand(value: string, k: nat)
    requires 3 <= |value| < 35
    ensures var r := IbanNormalize(value);
      r.raw == Strip(value[..2], ' ') + Digits(value[2..Min(|value|, 33)])
    ensures var r, b := IbanNormalize(value), IbanBody(value);
      |r.maskedValue| == |b| + (|b| - 1) / 4
    ensures var r, b := IbanNormalize(value), IbanBody(value);
      k < |r.maskedValue| ==> k % 5 != 4 ==> k - k / 5 < |b|
    ensures var r, b := IbanNormalize(value), IbanBody(value);
      k < |r.maskedValue| ==> r.maskedValue[k] == if k % 5 == 4 then ' ' else b[k - k / 5]
  {
    var b := IbanBody(value);
    var tail := Digits(value[2..Min(|value|, 33)]);
    GroupedLength(b, 4, ' ');
    GroupedFilter(c => c != ' ', b, 4, ' ');
    FilterConcat(c => c != ' ', value[..2], tail);
    FilterKeepsAll(c => c != ' ', tail);
    if k < |Grouped(b, 4, ' ')| {
      GroupedAtFours(b, ' ', k);
    }
  }

  /**
   * An IBAN field is complete exactly when the input is in the middle band and
   * the country code with its digits makes 27 characters; up to 27 of them fit
   * the template.
   */
  lemma IbanComplete(value: string)
    ensures IsComplete(IbanNormalize(value).maskedValue, Iban) <==> 3 <= |value| < 35 && |IbanBody(value)| == 27
    ensures 3 <= |value| < 35 && |IbanBody(value)| <= 27 ==> |IbanNormalize(value).maskedValue| <= |Pattern(Iban)|
  {
    if 3 <= |value| < 35 {
      GroupedLength(IbanBody(value), 4, ' ');
    }
  }

  // ---------------------------------------------------------------------------
  // Dispatch, templates, completion
  // ---------------------------------------------------------------------------

  /**
   * `formatter`: the normalizer of the mask type. For every type the raw value
   * is the display with its decoration taken out: the punctuation of the phone
   * display, the spaces of the credit-card and IBAN displays, the colons of the
   * time display; a zip code has none.
   */
  function Formatter(value: string, maskType: MaskType): (r: NormalizeReturn)
    ensures maskType != Iban ==> AllDigits(r.raw)
    ensures match maskType
      case Phone => r.raw == Digits(r.maskedValue)
      case CreditCard => r.raw == Strip(r.maskedValue, ' ')
      case ZipCode => r.raw == r.maskedValue
      case Time => r.raw == Strip(r.maskedValue, ':')
      case Iban => r.raw == Strip(r.maskedValue, ' ')
  {
    match maskType
    case Phone =>
      PhoneRawIsDisplayedDigits(value);
      PhoneNormalize(value)
    case CreditCard => CreditCardNormalize(value)
    case ZipCode => ZipCodeNormalize(value)
    case Time => TimeNormalize(value)
    case Iban => IbanNormalize(value)
  }

  /** `pattern`: the display template of each mask type, also its placeholder and maximum length. */
  function Pattern(maskType: MaskType): (p: string)
    ensures |p| == match maskType
      case Phone => 19
      case CreditCard => 19
      case ZipCode => 5
      case Time => 8
      case Iban => 33
  {
    match maskType
    case Phone => "+380 (00) 000 00 00"
    case CreditCard => "0000 0000 0000 0000"
    case ZipCode => "00000"
    case Time => "00:00:00"
    case Iban => "AA00 0000 0000 0000 0000 0000 000"
  }

  /** The component's completion test: the display is as long as the template. */
  predicate IsComplete(maskedValue: string, maskType: MaskType)
    ensures IsComplete(maskedValue, maskType) ==> 5 <= |maskedValue| <= 33
  {
    |maskedValue| == |Pattern(maskType)|
  }

  lemma PhonePatternIsNormalized()
    ensures PhoneNormalize(Pattern(Phone)).maskedValue == Pattern(Phone)
  {
    var p := Pattern(Phone);
    var g := ["380", "00", "000", "00", "00"];
    PhoneTemplateDigits(g, p);
    PhoneTemplateCaptures(g, Digits(p));
    PhoneGeneralForm(p);
  }

  lemma PhoneTemplateDigits(g: seq<string>, p: string)
    requires g == ["380", "00", "000", "00", "00"] && p == Pattern(Phone)
    ensures PhoneDisplay(g) == p
    ensures Digits(p) == "380" + "00" + "000" + "00" + "00"
  {
    assert PhoneDisplay(g) == p;
    PhoneDisplayDigits(g);
  }

  lemma PhoneTemplateCaptures(g: seq<string>, d: string)
    requires g == ["380", "00", "000", "00", "00"] && d == "380" + "00" + "000" + "00" + "00"
    ensures PhoneCapturesOf(d) == g
  {
    Concat5(g);
    assert Fits(d, PhoneGroupSizes, g);
    GreedySplitUnique(d, PhoneGroupSizes, g);
    PhoneCaptures(d);
  }

  lemma CreditCardPatternIsNormalized()
    ensures CreditCardNormalize(Pattern(CreditCard)).maskedValue == Pattern(CreditCard)
  {
    var z := "00000000" + "00000000";
    CreditCardTemplateGrouped(z);
    GroupedFilter(IsDigit, z, 4, ' ');
    DigitsOfDigits(z);
  }

  lemma CreditCardTemplateGrouped(z: string)
    requires z == "00000000" + "00000000"
    ensures Grouped(z, 4, ' ') == Pattern(CreditCard)
  {
    var z8 := "00000000";
    GroupedEight(z8);
    GroupedAppend(z8, z8, 4, ' ', 2);
    assert "0000 0000" + [' '] + "0000 0000" == Pattern(CreditCard);
  }

  /** Eight characters make two groups of four. */
  lemma GroupedEight(s: string)
    requires |s| == 8
    ensures Grouped(s, 4, ' ') == s[..4] + [' '] + s[4..]
  {
    GroupedSplit(s, 4, ' ');
    GroupedShort(s[4..], 4, ' ');
  }

  lemma TimePatternIsNormalized()
    ensures TimeNormalize(Pattern(Time)).maskedValue == Pattern(Time)
  {
    var z := "000000";
    TimeTemplateGrouped(z);
    GroupedFilter(IsDigit, z, 2, ':');
    DigitsOfDigits(z);
  }

  lemma TimeTemplateGrouped(z: string)
    requires z == "000000"
    ensures Grouped(z, 2, ':') == Pattern(Time)
  {
    GroupedSplit(z, 2, ':');
    GroupedSplit(z[2..], 2, ':');
    GroupedShort(z[4..], 2, ':');
    assert z[2..][2..] == z[4..];
    assert "00" + [':'] + ("00" + [':'] + "00") == Pattern(Time);
  }

  lemma IbanPatternIsNormalized()
    ensures IbanNormalize(Pattern(Iban)).maskedValue == Pattern(Iban)
  {
    var body := "AA000000" + ("00000000" + ("00000000" + "000"));
    IbanTemplateGrouped(body);
    assert AllDigits(body[2..]);
    IbanBodyOfGrouped(body);
  }

  lemma IbanTemplateGrouped(body: string)
    requires body == "AA000000" + ("00000000" + ("00000000" + "000"))
    ensures Grouped(body, 4, ' ') == Pattern(Iban)
  {
    var head, rest := "AA000000", "00000000" + ("00000000" + "000");
    var m := IbanTemplateRest(rest);
    GroupedEight(head);
    assert Grouped(head, 4, ' ') == "AA00 0000";
    GroupedAppend(head, rest, 4, ' ', 2);
    IbanTemplateJoin(m);
  }

  lemma IbanTemplateJoin(m: string)
    requires m == "0000 0000" + [' '] + ("0000 0000" + [' '] + "000")
    ensures "AA00 0000" + [' '] + m == Pattern(Iban)
  {
  }

  lemma IbanTemplateRest(rest: string) returns (m: string)
    requires rest == "00000000" + ("00000000" + "000")
    ensures m == "0000 0000" + [' '] + ("0000 0000" + [' '] + "000")
    ensures Grouped(rest, 4, ' ') == m
  {
    var z8, tail := "00000000", "000";
    var t := IbanTemplateTail(z8 + tail);
    GroupedEight(z8);
    assert Grouped(z8, 4, ' ') == "0000 0000";
    GroupedAppend(z8, z8 + tail, 4, ' ', 2);
    m := "0000 0000" + [' '] + t;
  }

  lemma IbanTemplateTail(rest: string) returns (t: string)
    requires rest == "00000000" + "000"
    ensures t == "0000 0000" + [' '] + "000"
    ensures Grouped(rest, 4, ' ') == t
  {
    var z8, tail := "00000000", "000";
    GroupedEight(z8);
    assert Grouped(z8, 4, ' ') == "0000 0000";
    GroupedShort(tail, 4, ' ');
    GroupedAppend(z8, tail, 4, ' ', 2);
    t := "0000 0000" + [' '] + "000";
  }

  /**
   * A display laid out from a body of at least three characters, whose tail
   * after the country code is digits, gives that body back.
   */
  lemma IbanBodyOfGrouped(b: string)
    requires 3 <= |b| && AllDigits(b[2..]) && |Grouped(b, 4, ' ')| <= 33
    ensures var q := Grouped(b, 4, ' '); |q| >= 3 && IbanBody(q) == b
  {
    GroupedLength(b, 4, ' ');
    if |b| <= 4 {
      IbanBodyOfShort(b);
    } else {
      IbanBodyOfLong(b);
    }
  }

  lemma IbanBodyOfShort(b: string)
    requires 3 <= |b| <= 4 && AllDigits(b[2..])
    ensures IbanBody(Grouped(b, 4, ' ')) == b
  {
    var q := Grouped(b, 4, ' ');
    GroupedShort(b, 4, ' ');
    assert b == b[..2] + b[2..];
    DigitsOfDigits(b[2..]);
    assert q[2..Min(|q|, 33)] == b[2..];
  }

  lemma IbanBodyOfLong(b: string)
    requires 4 < |b| && AllDigits(b[2..]) && |Grouped(b, 4, ' ')| <= 33
    ensures IbanBody(Grouped(b, 4, ' ')) == b
  {
    var q := Grouped(b, 4, ' ');
    GroupedSplit(b, 4, ' ');
    var rest := Grouped(b[4..], 4, ' ');
    assert q == b[..4] + [' '] + rest;
    assert q[..2] == b[..2];
    assert q[2..Min(|q|, 33)] == b[2..4] + ([' '] + rest);
    IbanTailDigits(b);
    assert b == b[..2] + b[2..];
  }

  /** Past the country code, the digits of a grouped body are the body's own tail. */
  lemma IbanTailDigits(b: string)
    requires 4 < |b| && AllDigits(b[2..])
    ensures Digits(b[2..4] + ([' '] + Grouped(b[4..], 4, ' '))) == b[2..]
  {
    var x, y := b[2..4], b[4..];
    assert x + y == b[2..];
    assert AllDigits(x) && AllDigits(y) by {
      forall i | 0 <= i < |x| ensures IsDigit(x[i]) { assert x[i] == b[2..][i]; }
      forall i | 0 <= i < |y| ensures IsDigit(y[i]) { assert y[i] == b[2..][i + 2]; }
    }
    GroupedFilter(IsDigit, y, 4, ' ');
    DigitsOfDigits(y);
    DigitsAroundSpace(x, Grouped(y, 4, ' '), y);
  }

  /** A space between digits and a text whose digits are known contributes no digit. */
  lemma DigitsAroundSpace(x: string, rest: string, y: string)
    requires AllDigits(x) && Digits(rest) == y
    ensures Digits(x + ([' '] + rest)) == x + y
  {
    DigitsAppend(x, [' '] + rest);
    DigitsAppend([' '], rest);
    assert Digits([' ']) == [];
    DigitsOfDigits(x);
  }

  /**
   * Feeding a display in the account band back in changes nothing, as long as
   * it still fits the template (at most 27 characters of body, 33 displayed).
   */
  lemma IbanStable(value: string)
    requires 3 <= |value| < 35 && 3 <= |IbanBody(value)| <= 27
    ensures IbanNormalize(IbanNormalize(value).maskedValue) == IbanNormalize(value)
  {
    var b := IbanBody(value);
    assert AllDigits(b[2..]) by {
      assert b[2..] == Digits(value[2..Min(|value|, 33)]);
    }
    GroupedLength(b, 4, ' ');
    IbanBodyOfGrouped(b);
  }

  /** Each template is itself a complete display: normalizing it gives it back. */
  lemma PatternIsNormalized(maskType: MaskType)
    ensures Formatter(Pattern(maskType), maskType).maskedValue == Pattern(maskType)
    ensures IsComplete(Formatter(Pattern(maskType), maskType).maskedValue, maskType)
  {
    match maskType
    case Phone => PhonePatternIsNormalized();
    case CreditCard => CreditCardPatternIsNormalized();
    case ZipCode => DigitsOfDigits(Pattern(ZipCode));
    case Time => TimePatternIsNormalized();
    case Iban => IbanPatternIsNormalized();
  }
}
