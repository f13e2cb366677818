/**
 * The sub-content identifier that the cover upgrade gives a new image: the
 * template `xxxxxxxx-xxxx-4xxx-yxxx-xxxxxxxxxxxx` with every `x` replaced by
 * a random hexadecimal digit and the `y` by a random digit of the form
 * `10xx` in binary, so that the result has the shape of a version 4 UUID
 * (version nibble 4, variant bits 10; RFC 4122, sections 4.1.1, 4.1.3 and 4.4).
 *
 * `Math.random()*16|0` is not modelled: its values are supplied, in the
 * order in which the template's `x` and `y` characters are met.
 */
module SubContentId {

  /** One value of `Math.random()*16|0`. */
  type Nibble = x: int | 0 <= x < 16

  const Template: string := "xxxxxxxx-xxxx-4xxx-yxxx-xxxxxxxxxxxx"

  /** The lower-case hexadecimal digit of `d` (`Number.prototype.toString(16)`). */
  function HexDigit(d: Nibble): (c: char)
    ensures IsLowerHex(c) && HexValue(c) == d
  {
    "0123456789abcdef"[d]
  }

  /** `c` is a lower-case hexadecimal digit. */
  predicate IsLowerHex(c: char)
  {
    '0' <= c <= '9' || 'a' <= c <= 'f'
  }

  /** The value of a lower-case hexadecimal digit. */
  function HexValue(c: char): Nibble
    requires IsLowerHex(c)
  {
    if c <= '9' then c as int - '0' as int else c as int - 'a' as int + 10
  }

  /** `random & 0x3 | 0x8`: keeps the two low bits and sets the high bit, giving 8 to 11. */
  function VariantNibble(r: Nibble): (v: Nibble)
  {
    ((r as bv8 & 0x3) | 0x8) as int
  }

  /** The variant nibble is `10` followed by the two low bits of the random value. */
  lemma VariantNibbleValue(r: Nibble)
    ensures VariantNibble(r) == 8 + r % 4
  {
    var b := r as bv8;
    assert b == (r / 4 * 4) as bv8 + (r % 4) as bv8;
  }

  /** The number of characters of `t` that the replacement rewrites. */
  function Placeholders(t: string): nat
  {
    if t == [] then 0 else (if t[0] == 'x' || t[0] == 'y' then 1 else 0) + Placeholders(t[1..])
  }

  /**
   * `t.replace(/[xy]/g, callback)`: each `x` or `y`, from left to right, is
   * replaced by the callback's digit for the next random value.
   */
  function Fill(t: string, rs: seq<Nibble>): (id: string)
    requires |rs| == Placeholders(t)
    ensures |id| == |t|
  {
    if t == [] then []
    else if t[0] == 'x' then [HexDigit(rs[0])] + Fill(t[1..], rs[1..])
    else if t[0] == 'y' then [HexDigit(VariantNibble(rs[0]))] + Fill(t[1..], rs[1..])
    else [t[0]] + Fill(t[1..], rs)
  }

  /** How many random values the template consumes. */
  const RandomCount: nat := 31

  /** The identifier generated from the given random values. */
  function Generate(rs: seq<Nibble>): (id: string)
    requires |rs| == RandomCount
  {
    TemplatePlaceholders();
    Fill(Template, rs)
  }

  /** Hexadecimal digits of a run of random values. */
  function Hex(rs: seq<Nibble>): (s: string)
    ensures |s| == |rs| && forall i :: 0 <= i < |rs| ==> s[i] == HexDigit(rs[i])
  {
    if rs == [] then [] else [HexDigit(rs[0])] + Hex(rs[1..])
  }

  /** A run of `n` placeholder `x` characters. */
  function Xs(n: nat): (s: string)
    ensures |s| == n && forall i :: 0 <= i < n ==> s[i] == 'x'
  {
    if n == 0 then [] else "x" + Xs(n - 1)
  }

  /** The template cut at its fixed characters. */
  lemma TemplateLayout()
    ensures Template == Xs(8) + "-" + Xs(4) + "-4" + Xs(3) + "-y" + Xs(3) + "-" + Xs(12)
  {
  }

  /**
   * The identifier laid out field by field, as RFC 4122 describes a version
   * 4 UUID: eight, four, four, four and twelve hexadecimal digits joined by
   * dashes, the version digit `4` leading the third group and the variant
   * digit leading the fourth.
   */
  function Layout(rs: seq<Nibble>): (id: string)
    requires |rs| == RandomCount
  {
    Hex(rs[..8]) + "-" + Hex(rs[8..12]) + "-4" + Hex(rs[12..15]) + "-" +
    [HexDigit(VariantNibble(rs[15]))] + Hex(rs[16..19]) + "-" + Hex(rs[19..])
  }

  /** Placeholders of a concatenation add up. */
  lemma {:induction false} PlaceholdersAppend(a: string, b: string)
    ensures Placeholders(a + b) == Placeholders(a) + Placeholders(b)
    decreases |a|
  {
    if a != [] {
      assert (a + b)[0] == a[0];
      assert (a + b)[1..] == a[1..] + b;
      PlaceholdersAppend(a[1..], b);
    } else {
      assert a + b == b;
    }
  }

  /** A run of `x` characters is all placeholders. */
  lemma {:induction false} PlaceholdersXs(n: nat)
    ensures Placeholders(Xs(n)) == n
  {
    if n > 0 {
      assert Xs(n)[1..] == Xs(n - 1);
      PlaceholdersXs(n - 1);
    }
  }

  /** The template consumes 31 random values: 30 for `x` and one for `y`. */
  lemma TemplatePlaceholders()
    ensures Placeholders(Template) == RandomCount
  {
    TemplateLayout();
    PlaceholdersXs(8);
    PlaceholdersXs(4);
    PlaceholdersXs(3);
    PlaceholdersXs(12);
    LayoutPlaceholders(Xs(8), Xs(4), Xs(3), Xs(3), Xs(12));
  }

  /** Placeholders of the template's layout, whatever its five runs hold. */
  lemma LayoutPlaceholders(a: string, b: string, c: string, d: string, e: string)
    ensures Placeholders(a + "-" + b + "-4" + c + "-y" + d + "-" + e) ==
      Placeholders(a) + Placeholders(b) + Placeholders(c) + 1 + Placeholders(d) + Placeholders(e)
  {
    assert Placeholders("-") == 0;
    assert Placeholders("-4") == 0;
    assert Placeholders("-y") == 1;
    PlaceholdersAppend(a, "-");
    PlaceholdersAppend(a + "-", b);
    PlaceholdersAppend(a + "-" + b, "-4");
    PlaceholdersAppend(a + "-" + b + "-4", c);
    PlaceholdersAppend(a + "-" + b + "-4" + c, "-y");
    PlaceholdersAppend(a + "-" + b + "-4" + c + "-y", d);
    PlaceholdersAppend(a + "-" + b + "-4" + c + "-y" + d, "-");
    PlaceholdersAppend(a + "-" + b + "-4" + c + "-y" + d + "-", e);
  }

  /** Filling a concatenation fills each part with its own share of the random values. */
  lemma {:induction false} FillAppend(a: string, b: string, rs: seq<Nibble>)
    requires |rs| == Placeholders(a) + Placeholders(b)
    ensures |rs| == Placeholders(a + b)
    ensures Fill(a + b, rs) == Fill(a, rs[..Placeholders(a)]) + Fill(b, rs[Placeholders(a)..])
    decreases |a|
  {
    PlaceholdersAppend(a, b);
    if a == [] {
      assert a + b == b;
    } else {
      var c, t := a[0], a[1..];
      var k, m := Placeholders([c]), Placeholders(t);
      ConsPlaceholders(a, b);
      SliceParts(rs, k, m);
      var head, middle, tail := Fill([c], rs[..k]), Fill(t, rs[k..k + m]), Fill(b, rs[k + m..]);
      assert Fill(a + b, rs) == head + (middle + tail) by {
        FillCons(c, t + b, rs);
        FillAppend(t, b, rs[k..]);
      }
      assert Fill(a, rs[..k + m]) == head + middle by {
        FillCons(c, t, rs[..k + m]);
      }
      AppendAssociates(head, middle, tail);
    }
  }

  /** Concatenation of strings is associative. */
  lemma AppendAssociates(x: string, y: string, z: string)
    ensures x + (y + z) == x + y + z
  {
  }

  /** Placeholders of `a + b` counted from the first character of `a`. */
  lemma ConsPlaceholders(a: string, b: string)
    requires a != []
    ensures a == [a[0]] + a[1..] && a + b == [a[0]] + (a[1..] + b)
    ensures Placeholders([a[0]]) + Placeholders(a[1..]) == Placeholders(a)
    ensures Placeholders(a[1..] + b) == Placeholders(a[1..]) + Placeholders(b)
  {
    PlaceholdersAppend([a[0]], a[1..]);
    PlaceholdersAppend(a[1..], b);
    assert [a[0]] + a[1..] == a;
  }

  /** The slices of the random values that the three parts take. */
  lemma SliceParts(rs: seq<Nibble>, k: nat, m: nat)
    requires k + m <= |rs|
    ensures rs[..k + m][..k] == rs[..k] && rs[..k + m][k..] == rs[k..][..m] == rs[k..k + m] && rs[k..][m..] == rs[k + m..]
  {
  }

  /** Filling a text fills its first character with the first share of the random values. */
  lemma FillCons(c: char, t: string, rs: seq<Nibble>)
    requires |rs| == Placeholders([c] + t)
    ensures Placeholders([c]) <= |rs| && Placeholders([c] + t) == Placeholders([c]) + Placeholders(t)
    ensures Fill([c] + t, rs) == Fill([c], rs[..Placeholders([c])]) + Fill(t, rs[Placeholders([c])..])
  {
    assert ([c] + t)[0] == c && ([c] + t)[1..] == t;
    assert [c][1..] == [];
  }

  /** Filling a run of `x` characters writes the hexadecimal digits of the random values. */
  lemma {:induction false} FillXs(rs: seq<Nibble>)
    ensures Placeholders(Xs(|rs|)) == |rs|
    ensures Fill(Xs(|rs|), rs) == Hex(rs)
    decreases |rs|
  {
    PlaceholdersXs(|rs|);
    if rs != [] {
      assert Xs(|rs|)[1..] == Xs(|rs| - 1);
      FillXs(rs[1..]);
    }
  }

  /** A run of `n` placeholders in front of `b` takes the first `n` random values. */
  lemma FillXsThen(n: nat, b: string, rs: seq<Nibble>)
    requires |rs| == n + Placeholders(b)
    ensures |rs| == Placeholders(Xs(n) + b)
    ensures Fill(Xs(n) + b, rs) == Hex(rs[..n]) + Fill(b, rs[n..])
  {
    FillXs(rs[..n]);
    FillAppend(Xs(n), b, rs);
  }

  /** Fixed characters in front of `b` are copied and take no random value. */
  lemma FillFixedThen(t: string, b: string, rs: seq<Nibble>)
    requires Placeholders(t) == 0 && |rs| == Placeholders(b)
    ensures |rs| == Placeholders(t + b)
    ensures Fill(t + b, rs) == t + Fill(b, rs)
  {
    FillAppend(t, b, rs);
    assert rs[..0] == [] && rs[0..] == rs;
    FixedCopied(t);
  }

  /** A template without placeholders is its own filling. */
  lemma {:induction false} FixedCopied(t: string)
    requires Placeholders(t) == 0
    ensures Fill(t, []) == t
  {
    if t != [] {
      FixedCopied(t[1..]);
    }
  }

  /** `-y` in front of `b` writes a dash and the variant digit of the first random value. */
  lemma FillVariantThen(b: string, rs: seq<Nibble>)
    requires |rs| == 1 + Placeholders(b)
    ensures |rs| == Placeholders("-y" + b)
    ensures Fill("-y" + b, rs) == "-" + [HexDigit(VariantNibble(rs[0]))] + Fill(b, rs[1..])
  {
    FillAppend("-y", b, rs);
    assert Fill("-y", rs[..1]) == "-" + [HexDigit(VariantNibble(rs[0]))];
  }

  /** Filling the template is the field-by-field layout. */
  lemma GenerateLayout(rs: seq<Nibble>)
    requires |rs| == RandomCount
    ensures Generate(rs) == Layout(rs)
  {
    TemplateLayout();
    FillXs(rs[..8]);
    FillXs(rs[8..12]);
    FillXs(rs[12..15]);
    FillXs(rs[16..19]);
    FillXs(rs[19..]);
    FillLayout(Xs(8), Xs(4), Xs(3), Xs(3), Xs(12), rs);
  }

  /** Filling the template's layout, whatever its five runs hold. */
  lemma FillLayout(a: string, b: string, c: string, d: string, e: string, rs: seq<Nibble>)
    requires Placeholders(a) == 8 && Placeholders(b) == 4 && Placeholders(c) == 3
    requires Placeholders(d) == 3 && Placeholders(e) == 12 && |rs| == RandomCount
    ensures Placeholders(a + "-" + b + "-4" + c + "-y" + d + "-" + e) == RandomCount
    ensures Fill(a + "-" + b + "-4" + c + "-y" + d + "-" + e, rs) ==
            Fill(a, rs[..8]) + "-" + Fill(b, rs[8..12]) + "-4" + Fill(c, rs[12..15]) + "-" +
            [HexDigit(VariantNibble(rs[15]))] + Fill(d, rs[16..19]) + "-" + Fill(e, rs[19..])
  {
    FillFront(a, b, c, rs);
    FillBack(a + "-" + b + "-4" + c, d, e, rs);
  }

  /** Filling the first three runs of the layout takes the first 15 random values. */
  lemma FillFront(a: string, b: string, c: string, rs: seq<Nibble>)
    requires Placeholders(a) == 8 && Placeholders(b) == 4 && Placeholders(c) == 3 && 15 <= |rs|
    ensures Placeholders(a + "-" + b + "-4" + c) == 15
    ensures Fill(a + "-" + b + "-4" + c, rs[..15]) ==
            Fill(a, rs[..8]) + "-" + Fill(b, rs[8..12]) + "-4" + Fill(c, rs[12..15])
  {
    var l1 := a + "-";
    var l2 := l1 + b;
    var l3 := l2 + "-4";
    assert Placeholders(l1) == 8 && Fill(l1, rs[..8]) == Fill(a, rs[..8]) + "-" by {
      FillExtend(a, "-", rs, 8, 0);
    }
    assert Placeholders(l2) == 12 && Fill(l2, rs[..12]) == Fill(l1, rs[..8]) + Fill(b, rs[8..12]) by {
      FillExtend(l1, b, rs, 8, 4);
    }
    assert Placeholders(l3) == 12 && Fill(l3, rs[..12]) == Fill(l2, rs[..12]) + "-4" by {
      FillExtend(l2, "-4", rs, 12, 0);
    }
    FillExtend(l3, c, rs, 12, 3);
  }

  /** Filling the variant digit and the last two runs of the layout after a front of 15 placeholders. */
  lemma FillBack(f: string, d: string, e: string, rs: seq<Nibble>)
    requires Placeholders(f) == 15 && Placeholders(d) == 3 && Placeholders(e) == 12 && |rs| == RandomCount
    ensures Placeholders(f + "-y" + d + "-" + e) == RandomCount
    ensures Fill(f + "-y" + d + "-" + e, rs) ==
            Fill(f, rs[..15]) + "-" + [HexDigit(VariantNibble(rs[15]))] + Fill(d, rs[16..19]) + "-" + Fill(e, rs[19..])
  {
    var l5 := f + "-y";
    var l6 := l5 + d;
    var l7 := l6 + "-";
    assert Placeholders(l5) == 16 &&
      Fill(l5, rs[..16]) == Fill(f, rs[..15]) + "-" + [HexDigit(VariantNibble(rs[15]))] by {
      FillExtend(f, "-y", rs, 15, 1);
      assert rs[15..16] == [rs[15]];
    }
    assert Placeholders(l6) == 19 && Fill(l6, rs[..19]) == Fill(l5, rs[..16]) + Fill(d, rs[16..19]) by {
      FillExtend(l5, d, rs, 16, 3);
    }
    assert Placeholders(l7) == 19 && Fill(l7, rs[..19]) == Fill(l6, rs[..19]) + "-" by {
      FillExtend(l6, "-", rs, 19, 0);
    }
    FillAppend(l7, e, rs);
  }

  /** Filling `l` and then `x` from the first `k + m` random values. */
  lemma FillExtend(l: string, x: string, rs: seq<Nibble>, k: nat, m: nat)
    requires Placeholders(l) == k && Placeholders(x) == m && k + m <= |rs|
    ensures Placeholders(l + x) == k + m
    ensures Fill(l + x, rs[..k + m]) == Fill(l, rs[..k]) + Fill(x, rs[k..k + m])
  {
    FillAppend(l, x, rs[..k + m]);
    assert rs[..k + m][..k] == rs[..k] && rs[..k + m][k..] == rs[k..k + m];
  }

  /** The positions of the four dashes. */
  predicate IsDashPosition(i: int)
  {
    i == 8 || i == 13 || i == 18 || i == 23
  }

  /**
   * The textual shape of a version 4 UUID (RFC 4122, sections 3, 4.1.3 and
   * 4.4): 36 characters, dashes at 8, 13, 18 and 23, the version digit `4`
   * at 14, a variant digit `10xx` (8, 9, a or b) at 19, and lower-case
   * hexadecimal digits everywhere else.
   */
  predicate IsVersion4Shape(id: string)
  {
    |id| == 36 &&
    (forall i :: 0 <= i < 36 && IsDashPosition(i) ==> id[i] == '-') &&
    id[14] == '4' && (id[19] == '8' || id[19] == '9' || id[19] == 'a' || id[19] == 'b') &&
    (forall i :: 0 <= i < 36 && !IsDashPosition(i) && i != 14 && i != 19 ==> IsLowerHex(id[i]))
  }

  /** Every generated identifier has the shape of a version 4 UUID. */
  lemma GeneratedShape(rs: seq<Nibble>)
    requires |rs| == RandomCount
    ensures IsVersion4Shape(Generate(rs))
  {
    GenerateLayout(rs);
    VariantNibbleValue(rs[15]);
    var id := Layout(rs);
    forall i | 0 <= i < 36
      ensures (IsDashPosition(i) ==> id[i] == '-') && (i == 14 ==> id[i] == '4')
      ensures i == 19 ==> id[i] == HexDigit(VariantNibble(rs[15]))
      ensures !IsDashPosition(i) && i != 14 && i != 19 ==> IsLowerHex(id[i])
    {
      LayoutAt(rs, i);
    }
  }

  /** The character at each position of the layout. */
  lemma LayoutAt(rs: seq<Nibble>, i: int)
    requires |rs| == RandomCount && 0 <= i < 36
    ensures |Layout(rs)| == 36
    ensures Layout(rs)[i] ==
      if IsDashPosition(i) then '-'
      else if i == 14 then '4'
      else if i == 19 then HexDigit(VariantNibble(rs[15]))
      else HexDigit(rs[RandomIndex(i)])
  {
  }

  /** Which random value the character at position `i` of the identifier was drawn from. */
  function RandomIndex(i: int): int
  {
    if i < 8 then i
    else if i < 13 then i - 1
    else if i < 19 then i - 3
    else if i < 23 then i - 4
    else i - 5
  }

  /** The position in the identifier of the character drawn from random value `k`. */
  function Position(k: nat): (i: nat)
    requires k < RandomCount
    ensures i < 36 && !IsDashPosition(i) && i != 14 && RandomIndex(i) == k
  {
    if k < 8 then k
    else if k < 12 then k + 1
    else if k < 15 then k + 3
    else if k < 19 then k + 4
    else k + 5
  }

  /** The random values an identifier records, read back from its hexadecimal digits. */
  function RecordedRandom(id: string): (rs: seq<Nibble>)
    requires IsVersion4Shape(id)
    ensures |rs| == RandomCount
  {
    seq(RandomCount, k requires 0 <= k < RandomCount => HexValue(id[Position(k)]))
  }

  /**
   * The identifier keeps every random value it was made from, except that
   * the variant position keeps only the low two bits (and sets the high bit).
   */
  lemma GeneratedRecordsRandom(rs: seq<Nibble>)
    requires |rs| == RandomCount
    ensures IsVersion4Shape(Generate(rs))
    ensures RecordedRandom(Generate(rs)) == rs[15 := VariantNibble(rs[15])]
  {
    GeneratedShape(rs);
    GenerateLayout(rs);
    var id := Layout(rs);
    forall k | 0 <= k < RandomCount
      ensures RecordedRandom(id)[k] == rs[15 := VariantNibble(rs[15])][k]
    {
      var i := Position(k);
      LayoutAt(rs, i);
    }
  }
}
