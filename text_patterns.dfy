/**
 * The two regular-expression tests applied to RFC 3339 text (section 5.6 of
 * RFC 3339) before a Civil record is filled:
 *
 *   second present:     \d{4}-\d{2}-\d{2}T\d{2}:\d{2}:\d{2}(\.\d+)?       found anywhere
 *   local offset given: no match of \d{4}-\d{2}-\d{2}T\d{2}:\d{2}(:\d{2}\.\d+)?(Z$)
 *
 * java.util.regex's \d is an ASCII digit, and $ (without MULTILINE) matches at
 * the end of the input or before one final line terminator.
 */
module TextPatterns {
  import opened JavaText

  /** A Java line terminator, as $ recognises it before the end of the input. */
  predicate IsLineTerminator(c: char) {
    c == '\n' || c == '\r' || c == '\U{0085}' || c == '\U{2028}' || c == '\U{2029}'
  }

  /**
   * $ at position p, where the character before p is not '\r': the end of the
   * input, one final terminator, or a final "\r\n".
   */
  predicate DollarAt(t: string, p: int) {
    || p == |t|
    || (p == |t| - 1 && 0 <= p && IsLineTerminator(t[p]))
    || (p == |t| - 2 && 0 <= p && t[p] == '\r' && t[p + 1] == '\n')
  }

  predicate DigitsAt(t: string, i: int, n: nat) {
    0 <= i && i + n <= |t| && forall k :: i <= k < i + n ==> IsDigit(t[k])
  }

  /** \d{4}-\d{2}-\d{2}T\d{2}:\d{2} at position i (16 characters). */
  predicate DateHourMinuteAt(t: string, i: int) {
    && DigitsAt(t, i, 4) && i + 16 <= |t|
    && t[i + 4] == '-' && DigitsAt(t, i + 5, 2)
    && t[i + 7] == '-' && DigitsAt(t, i + 8, 2)
    && t[i + 10] == 'T' && DigitsAt(t, i + 11, 2)
    && t[i + 13] == ':' && DigitsAt(t, i + 14, 2)
  }

  /** The second-pattern matches at i: the 16 characters above, then ':' and two digits. */
  predicate SecondMatchAt(t: string, i: int) {
    DateHourMinuteAt(t, i) && i + 19 <= |t| && t[i + 16] == ':' && DigitsAt(t, i + 17, 2)
  }

  /** A pattern template: '#' stands for one ASCII digit, any other character for itself. */
  predicate FitsTemplate(w: string, template: string) {
    |w| == |template| && forall k :: 0 <= k < |template| ==> if template[k] == '#' then IsDigit(w[k]) else w[k] == template[k]
  }

  /** The template matches the text at position i. */
  predicate TemplateAt(t: string, i: int, template: string) {
    0 <= i && i + |template| <= |t| && FitsTemplate(t[i..i + |template|], template)
  }

  const SECOND_TEMPLATE := "####-##-##T##:##:##"
  const MINUTES_ZULU_TEMPLATE := "####-##-##T##:##Z"
  const FRACTION_PREFIX_TEMPLATE := "####-##-##T##:##:##."
  const SECONDS_ZULU_TEMPLATE := "####-##-##T##:##:##Z"

  lemma SecondMatchTemplate(t: string, i: int)
    ensures SecondMatchAt(t, i) <==> TemplateAt(t, i, SECOND_TEMPLATE)
  {
    assert |SECOND_TEMPLATE| == 19;
    if TemplateAt(t, i, SECOND_TEMPLATE) {
      var w := t[i..i + 19];
      assert FitsTemplate(w, SECOND_TEMPLATE);
      assert forall k :: 0 <= k < 19 ==> t[i + k] == w[k];
      assert forall k :: k in {0, 1, 2, 3, 5, 6, 8, 9, 11, 12, 14, 15, 17, 18} ==> IsDigit(w[k]);
    }
  }

  /**
   * isSecondExists: some 19 characters of the text read digits, '-', digits,
   * '-', digits, 'T', digits, ':', digits, ':', digits; the optional fraction
   * never decides whether a match is found.
   */
  function IsSecondExists(t: string): (r: bool)
    ensures r ==> 19 <= |t|
    ensures r <==> exists i :: TemplateAt(t, i, SECOND_TEMPLATE)
  {
    assert forall i :: SecondMatchAt(t, i) <==> TemplateAt(t, i, SECOND_TEMPLATE) by {
      forall i { SecondMatchTemplate(t, i); }
    }
    exists i :: 0 <= i < |t| && SecondMatchAt(t, i)
  }

  /**
   * The zulu pattern matches at i with its 'Z' at z: either 'Z' right after the
   * minutes, or ":" two digits "." one or more digits and then 'Z'; $ must hold
   * after the 'Z'.
   */
  predicate ZuluMatchAt(t: string, i: int, z: int) {
    && DateHourMinuteAt(t, i)
    && 0 <= z < |t| && t[z] == 'Z' && DollarAt(t, z + 1)
    && (|| z == i + 16
        || (z >= i + 21 && t[i + 16] == ':' && DigitsAt(t, i + 17, 2) && t[i + 19] == '.'
            && DigitsAt(t, i + 20, z - (i + 20))))
  }

  lemma MinutesZuluTemplate(t: string, i: int)
    requires TemplateAt(t, i, MINUTES_ZULU_TEMPLATE) && i + 17 == |t|
    ensures ZuluMatchAt(t, i, i + 16)
  {
    var m := MINUTES_ZULU_TEMPLATE;
    assert |m| == 17;
    var w := t[i..i + 17];
    assert FitsTemplate(w, m);
    assert forall k :: 0 <= k < 17 ==> t[i + k] == w[k];
    assert forall k :: k in {0, 1, 2, 3, 5, 6, 8, 9, 11, 12, 14, 15} ==> m[k] == '#';
    assert m[4] == '-' && m[7] == '-' && m[10] == 'T' && m[13] == ':' && m[16] == 'Z';
  }

  /** The text ends with 'Z', possibly followed by one final line terminator or a final "\r\n". */
  predicate EndsWithZulu(t: string) {
    || (|t| >= 1 && t[|t| - 1] == 'Z')
    || (|t| >= 2 && t[|t| - 2] == 'Z' && IsLineTerminator(t[|t| - 1]))
    || (|t| >= 3 && t[|t| - 3] == 'Z' && t[|t| - 2] == '\r' && t[|t| - 1] == '\n')
  }

  /**
   * isLocalTimeZoneExists: the zulu pattern is found nowhere. It can only be
   * found at the end of a text of at least 17 characters ending in 'Z', and it
   * is always found when the text ends with date, 'T', hours, minutes and 'Z'.
   */
  function IsLocalTimeZoneExists(t: string): (r: bool)
    ensures !r ==> 17 <= |t| && EndsWithZulu(t)
    ensures TemplateAt(t, |t| - 17, MINUTES_ZULU_TEMPLATE) ==> !r
  {
    if TemplateAt(t, |t| - 17, MINUTES_ZULU_TEMPLATE) then
      MinutesZuluTemplate(t, |t| - 17);
      false
    else
      !exists i, z :: 0 <= i < |t| && 0 <= z < |t| && ZuluMatchAt(t, i, z)
  }

  // ---------------------------------------------------------------------
  // Properties

  /**
   * Text ending with date, 'T', hours, minutes, seconds, '.', one or more digits
   * and 'Z' matches the zulu pattern, so it counts as giving no offset of its own.
   */
  lemma FractionZuluEnding(t: string, n: int)
    requires n >= 1 && TemplateAt(t, |t| - 21 - n, FRACTION_PREFIX_TEMPLATE)
    requires DigitsAt(t, |t| - 1 - n, n) && t[|t| - 1] == 'Z'
    ensures !IsLocalTimeZoneExists(t)
  {
    var i := |t| - 21 - n;
    var m := FRACTION_PREFIX_TEMPLATE;
    assert |m| == 20;
    var w := t[i..i + 20];
    assert FitsTemplate(w, m);
    assert forall k :: 0 <= k < 20 ==> t[i + k] == w[k];
    assert forall k :: k in {0, 1, 2, 3, 5, 6, 8, 9, 11, 12, 14, 15, 17, 18} ==> m[k] == '#';
    assert m[4] == '-' && m[7] == '-' && m[10] == 'T' && m[13] == ':' && m[16] == ':' && m[19] == '.';
    assert ZuluMatchAt(t, i, |t| - 1);
  }

  /**
   * Text ending with date, 'T', hours, minutes, whole seconds and 'Z' does not
   * match the zulu pattern, which wants a fraction after the seconds: it counts
   * as giving its own offset.
   */
  lemma WholeSecondsZuluEnding(t: string)
    requires TemplateAt(t, |t| - 20, SECONDS_ZULU_TEMPLATE)
    ensures IsLocalTimeZoneExists(t)
  {
    var b := |t| - 20;
    var m := SECONDS_ZULU_TEMPLATE;
    assert |m| == 20;
    var w := t[b..b + 20];
    assert FitsTemplate(w, m);
    assert forall k :: 0 <= k < 20 ==> t[b + k] == w[k];
    assert forall k :: k in {0, 1, 2, 3, 5, 6, 8, 9, 11, 12, 14, 15, 17, 18} ==> m[k] == '#';
    assert m[4] == '-' && m[7] == '-' && m[10] == 'T' && m[13] == ':' && m[16] == ':' && m[19] == 'Z';
    assert IsDigit(t[b + 18]) && t[b + 16] == ':' && IsDigit(t[b + 17]) && !IsDigit(t[b + 4]);
    assert |MINUTES_ZULU_TEMPLATE| == 17 && MINUTES_ZULU_TEMPLATE[1] == '#';
    assert t[|t| - 17 .. |t|][1] == t[b + 4];
    assert !TemplateAt(t, |t| - 17, MINUTES_ZULU_TEMPLATE);
    assert !IsLineTerminator(t[|t| - 1]) && t[|t| - 2] != '\r';
    assert !IsDigit(t[b + 16]) && t[b + 16] != '.' && t[b + 17] != '.';
    forall i, z | 0 <= i < |t| && 0 <= z < |t|
      ensures !ZuluMatchAt(t, i, z)
    {
      if z == |t| - 1 && i + 20 <= b + 16 {
        assert !DigitsAt(t, i + 20, z - (i + 20));
      }
    }
  }

  /** Text shorter than a date, 'T', hours, minutes and seconds cannot show a second. */
  lemma ShortTextHasNoSecond(t: string)
    requires |t| < 19
    ensures !IsSecondExists(t)
  {
  }

  /**
   * Text that ends with neither 'Z' nor a line terminator (for instance in a
   * numeric offset such as "+05:30") always counts as giving its own offset.
   */
  lemma NumericEndingIsLocal(t: string)
    requires |t| > 0 && t[|t| - 1] != 'Z' && !IsLineTerminator(t[|t| - 1])
    ensures IsLocalTimeZoneExists(t)
  {
  }

  /** A text whose zulu form has whole seconds only: the second is present and, since the pattern needs a fraction, so is utcOffset. */
  lemma WholeSecondsZulu()
    ensures IsSecondExists("2007-12-03T10:15:30Z")
    ensures IsLocalTimeZoneExists("2007-12-03T10:15:30Z")
  {
    var t := "2007-12-03T10:15:30Z";
    assert SecondMatchAt(t, 0);
    forall i, z | 0 <= i < |t| && 0 <= z < |t|
      ensures !ZuluMatchAt(t, i, z)
    {
      if 0 < i <= 3 {
        assert !IsDigit(t[4]);
      }
    }
  }

  /** Hours and minutes followed by 'Z': neither the second nor utcOffset is set. */
  lemma MinutesZulu()
    ensures !IsSecondExists("2007-12-03T10:15Z")
    ensures !IsLocalTimeZoneExists("2007-12-03T10:15Z")
  {
    var t := "2007-12-03T10:15Z";
    assert ZuluMatchAt(t, 0, 16);
  }

  /** A fraction of a second before 'Z' matches the zulu pattern, so utcOffset is left out. */
  lemma FractionZulu()
    ensures IsSecondExists("2007-12-03T10:15:30.00Z")
    ensures !IsLocalTimeZoneExists("2007-12-03T10:15:30.00Z")
  {
    var t := "2007-12-03T10:15:30.00Z";
    assert SecondMatchAt(t, 0);
    assert ZuluMatchAt(t, 0, 22);
  }
}
