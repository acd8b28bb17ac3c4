/** The storage object name every upload gets (`getSafeFileName`,
    app/admin/page.tsx lines 62-66): `<prefix>-<millis>-<random>.<ext>`.
    The clock reading and the text of the random number are parameters. */
module Naming {

  predicate IsDigit(c: char)
  {
    '0' <= c <= '9'
  }

  predicate AllDigits(s: string)
  {
    forall i :: 0 <= i < |s| ==> IsDigit(s[i])
  }

  function DigitChar(d: nat): (c: char)
    requires d < 10
    ensures IsDigit(c) && c as int - '0' as int == d
  {
    (('0' as int) + d) as char
  }

  /** The decimal text JavaScript gives a non-negative integer in a template
      string: no sign, no leading zero. */
  function Decimal(n: nat): (r: string)
    ensures |r| > 0 && AllDigits(r)
    ensures r[0] == '0' <==> n == 0
    ensures n == 0 ==> r == "0"
    decreases n
  {
    if n < 10 then [DigitChar(n)]
    else Decimal(n / 10) + [DigitChar(n % 10)]
  }

  /** The number a digit string denotes. */
  function DigitsValue(s: string): nat
    requires AllDigits(s)
  {
    if |s| == 0 then 0
    else DigitsValue(s[..|s| - 1]) * 10 + (s[|s| - 1] as int - '0' as int)
  }

  /** Reading back the decimal text gives the number it was made from. */
  lemma {:induction false} DecimalRoundTrip(n: nat)
    ensures DigitsValue(Decimal(n)) == n
    decreases n
  {
    if n >= 10 {
      DecimalRoundTrip(n / 10);
      var d := Decimal(n);
      assert d[..|d| - 1] == Decimal(n / 10);
    }
  }

  lemma DecimalInjective(m: nat, n: nat)
    requires m != n
    ensures Decimal(m) != Decimal(n)
  {
    DecimalRoundTrip(m);
    DecimalRoundTrip(n);
  }

  /** `name.split('.').pop()`: the text after the last dot, or the whole name
      when it has none. */
  function Extension(name: string): (r: string)
    ensures '.' !in r
    ensures |r| <= |name| && r == name[|name| - |r|..]
    ensures |r| < |name| ==> name[|name| - |r| - 1] == '.'
  {
    if |name| == 0 then ""
    else if name[|name| - 1] == '.' then ""
    else
      var init := name[..|name| - 1];
      var e := Extension(init);
      assert init[|init| - |e|..] + [name[|name| - 1]] == name[|name| - |e| - 1..];
      e + [name[|name| - 1]]
  }

  /** `.substring(2, 8)` of the random number's base-36 text, with
      JavaScript's clamping of both ends to the text's length. */
  function RandomPart(text: string): (r: string)
    ensures |r| <= 6
    ensures |text| >= 8 ==> r == text[2..8]
    ensures 2 <= |text| < 8 ==> r == text[2..]
    ensures |text| < 2 ==> r == ""
  {
    var from := if |text| < 2 then |text| else 2;
    var to := if |text| < 8 then |text| else 8;
    text[from..to]
  }

  function SafeFileName(name: string, prefix: string, now: nat, randomText: string): (r: string)
    ensures |r| > |prefix| && r[..|prefix| + 1] == prefix + "-"
    ensures Extension(r) == Extension(name)
    ensures r == prefix + "-" + NameTail(name, now, randomText)
  {
    var head := prefix + "-";
    var tail := NameTail(name, now, randomText);
    ExtensionAfterDot(Decimal(now) + "-" + RandomPart(randomText), Extension(name));
    ExtensionOfAppend(head, tail);
    assert (head + tail)[..|head|] == head;
    head + tail
  }

  /** What follows `<prefix>-` in a safe file name. */
  function NameTail(name: string, now: nat, randomText: string): (t: string)
    ensures '.' in t
    ensures t == Decimal(now) + "-" + RandomPart(randomText) + "." + Extension(name)
  {
    var t := Decimal(now) + "-" + RandomPart(randomText) + "." + Extension(name);
    assert t[|Decimal(now) + "-" + RandomPart(randomText)|] == '.';
    t
  }

  /** Text before a dot does not change the extension. */
  lemma {:induction false} ExtensionOfAppend(a: string, b: string)
    requires '.' in b
    ensures Extension(a + b) == Extension(b)
    decreases |b|
  {
    var s := a + b;
    if b[|b| - 1] != '.' {
      var init := b[..|b| - 1];
      assert s[..|s| - 1] == a + init;
      assert '.' in init by {
        var p :| 0 <= p < |b| && b[p] == '.';
        assert init[p] == '.';
      }
      ExtensionOfAppend(a, init);
    }
  }

  /** A dot-free tail after the last dot is what `Extension` recovers. */
  lemma {:induction false} ExtensionAfterDot(stem: string, ext: string)
    requires '.' !in ext
    ensures Extension(stem + "." + ext) == ext
    decreases |ext|
  {
    var s := stem + "." + ext;
    var n := |s|;
    if |ext| == 0 {
      assert s[n - 1] == '.';
    } else {
      var init := ext[..|ext| - 1];
      var last := ext[|ext| - 1];
      assert s[n - 1] == last;
      assert last != '.';
      assert s[..n - 1] == stem + "." + init;
      assert '.' !in init;
      ExtensionAfterDot(stem, init);
      assert Extension(s) == Extension(s[..n - 1]) + [last];
      assert ext == init + [last];
    }
  }

  /** Two different digit strings followed by a dash never start two equal texts. */
  lemma DigitsDashDiffer(d1: string, d2: string, x: string, y: string)
    requires AllDigits(d1) && AllDigits(d2) && d1 != d2
    ensures d1 + "-" + x != d2 + "-" + y
  {
    var a := d1 + "-" + x;
    var b := d2 + "-" + y;
    if |d1| == |d2| {
      var p :| 0 <= p < |d1| && d1[p] != d2[p];
      assert a[p] == d1[p] && b[p] == d2[p];
    } else if |d1| < |d2| {
      assert a[|d1|] == '-' && b[|d1|] == d2[|d1|];
    } else {
      assert b[|d2|] == '-' && a[|d2|] == d1[|d2|];
    }
  }

  /** Within one batch the i-th upload is named with prefix `tag + i`
      (`img-${i}`, `add-${i}`), so two uploads of one batch never share an
      object name, whatever the clock and the random numbers read. */
  lemma BatchNamesDistinct(tag: string, i: nat, j: nat,
                           name1: string, now1: nat, random1: string,
                           name2: string, now2: nat, random2: string)
    requires i != j
    ensures SafeFileName(name1, tag + Decimal(i), now1, random1) != SafeFileName(name2, tag + Decimal(j), now2, random2)
  {
    var rest1 := NameTail(name1, now1, random1);
    var rest2 := NameTail(name2, now2, random2);
    NameSplitsAtTag(tag, Decimal(i), name1, now1, random1);
    NameSplitsAtTag(tag, Decimal(j), name2, now2, random2);
    DecimalInjective(i, j);
    DigitsDashDiffer(Decimal(i), Decimal(j), rest1, rest2);
    PrefixCancels(tag, Decimal(i) + "-" + rest1, Decimal(j) + "-" + rest2);
  }

  lemma NameSplitsAtTag(tag: string, d: string, name: string, now: nat, randomText: string)
    ensures SafeFileName(name, tag + d, now, randomText) == tag + (d + "-" + NameTail(name, now, randomText))
  {
    Regroup(tag, d, "-", NameTail(name, now, randomText));
  }

  /** Concatenation regrouped; kept apart so the step is checked without
      the object-name definitions in view. */
  lemma Regroup(a: string, b: string, c: string, t: string)
    ensures (a + b) + c + t == a + (b + c + t)
  {
  }

  lemma PrefixCancels(t: string, x: string, y: string)
    requires x != y
    ensures t + x != t + y
  {
    assert (t + x)[|t|..] == x;
    assert (t + y)[|t|..] == y;
  }
}
