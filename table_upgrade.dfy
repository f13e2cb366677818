/**
 * Upgrade step 8 of H5P.InteractiveBook 1.x: the cover description is cut
 * at every `<table`, and only the segments that mention `border` anywhere
 * before the next `<table` change. In such a segment the border style is
 * inserted once for the table, once after every `<th` that is not
 * `<thead` and once after every `<td`: at the first `style="` between the
 * tag and the next tag of the same kind, or as a new attribute right after
 * the tag when there is none. That `style="` may belong to a later element,
 * so a header cell can go without a style while a data cell gets it twice.
 * For the table the choice is made by asking whether the array of segments
 * has an element equal to `style="`; when it has one, a segment without
 * `style="` gets nothing. All changes are insertions of text.
 */
module TableUpgrade {
  import opened Wrappers
  import opened Json
  import opened Book
  import opened Text

  /** The attribute opening that an existing style is recognised by. */
  const StyleAttr: string := "style=\""

  /** The style for tables of the H5P table editor. */
  const SolidStyle: string := StyleAttr + "border-style:solid;"

  /** The style for every other table with a border. */
  const DoubleStyle: string := StyleAttr + "border-style:double;" + "border-width:0.2em;" + "border-collapse:collapse;"

  const TableTag: Pattern := Literal("<table")

  /** `/<th(?!ead)/`: a header cell, not a table head. */
  const HeaderTag: Pattern := Pattern("<th", "ead")

  const CellTag: Pattern := Literal("<td")

  predicate IsStyle(style: string)
  {
    style == SolidStyle || style == DoubleStyle
  }

  /** The style of a segment: solid for an H5P table, double otherwise. */
  function StyleFor(segment: string): (style: string)
    ensures IsStyle(style)
  {
    if Contains(segment, "h5p-table") then SolidStyle else DoubleStyle
  }

  /** A new style attribute, written right after a tag name. */
  function NewAttribute(style: string): string
  {
    " " + style + "\""
  }

  /**
   * The style given to the text after one `<th` or `<td`: put in front of
   * the first `style="` when there is one (which may belong to a nested
   * element), and otherwise as a new attribute.
   */
  function Inject(part: string, style: string): string
  {
    if Contains(part, StyleAttr) then ReplaceFirst(part, StyleAttr, style) else NewAttribute(style) + part
  }

  /** `Inject` on every part. */
  function InjectAll(parts: seq<string>, style: string): (r: seq<string>)
    ensures |r| == |parts|
  {
    seq(|parts|, i requires 0 <= i < |parts| => Inject(parts[i], style))
  }

  /** Every cell that `tag` opens styled: the text is split at the tag and joined back with the parts after the first styled. */
  function StyledCells(x: string, tag: Pattern, style: string): string
    requires |tag.text| > 0
  {
    var parts := Split(x, tag);
    Join([parts[0]] + InjectAll(parts[1..], style), tag.text)
  }

  /** The `j`-th part after styling. */
  lemma InjectAllAt(parts: seq<string>, j: nat, style: string)
    requires 1 <= j < |parts|
    ensures ([parts[0]] + InjectAll(parts[1..], style))[j] == Inject(parts[j], style)
  {
    assert parts[1..][j - 1] == parts[j];
  }

  /** The styled parts up to the `j`-th, joined: the ones before it, the tag, and the `j`-th styled. */
  lemma NextCell(parts: seq<string>, style: string, j: nat, sep: string)
    requires 1 <= j < |parts|
    ensures var target := [parts[0]] + InjectAll(parts[1..], style);
      Join(target[..j + 1], sep) == Join(target[..j], sep) + sep + Inject(parts[j], style)
  {
    var target := [parts[0]] + InjectAll(parts[1..], style);
    InjectAllAt(parts, j, style);
    JoinPrefixStep(target, j, sep);
  }

  /** Joining one more element of `xs` appends the separator and that element. */
  lemma JoinPrefixStep(xs: seq<string>, j: nat, sep: string)
    requires 1 <= j < |xs|
    ensures Join(xs[..j + 1], sep) == Join(xs[..j], sep) + sep + xs[j]
  {
    assert xs[..j + 1] == xs[..j] + [xs[j]];
    JoinSnoc(xs[..j], xs[j], sep);
  }

  /** The table tag styled: merged into the first `style="` when `merge` holds, a new attribute otherwise. */
  function TableStyled(segment: string, merge: bool, style: string): string
  {
    if merge then ReplaceFirst(segment, StyleAttr, style) else NewAttribute(style) + segment
  }

  /** One segment after a `<table`: styled when it mentions `border`, unchanged otherwise. */
  function StyledSegment(segment: string, merge: bool): string
  {
    if !Contains(segment, "border") then segment
    else
      var style := StyleFor(segment);
      StyledCells(StyledCells(TableStyled(segment, merge, style), HeaderTag, style), CellTag, style)
  }

  /** `StyledSegment` on every segment. */
  function StyledSegments(segments: seq<string>, merge: bool): (r: seq<string>)
    ensures |r| == |segments|
  {
    seq(|segments|, i requires 0 <= i < |segments| => StyledSegment(segments[i], merge))
  }

  /** The `k`-th segment after styling. */
  lemma StyledSegmentsAt(segments: seq<string>, k: nat, merge: bool)
    requires 1 <= k < |segments|
    ensures ([segments[0]] + StyledSegments(segments[1..], merge))[k] == StyledSegment(segments[k], merge)
  {
    var rest := StyledSegments(segments[1..], merge);
    assert rest[k - 1] == StyledSegment(segments[1..][k - 1], merge);
    assert segments[1..][k - 1] == segments[k];
    assert ([segments[0]] + rest)[k] == rest[k - 1];
  }

  /**
   * The new description. Whether the table's own style is merged is
   * decided by `tables.includes('style="')`, which asks whether some
   * element of the split array IS `style="`, not whether a segment
   * contains it.
   */
  function NewDescription(d: string): string
  {
    var tables := Split(d, TableTag);
    Join([tables[0]] + StyledSegments(tables[1..], StyleAttr in tables), TableTag.text)
  }

  /** Step 8 as a whole; without a description string, `split` is not a function and the step throws. */
  function Upgrade(parameters: Value, extras: Value): Outcome
  {
    match Description(parameters)
    case Some(Str(d)) => Finished(Null, WithDescription(parameters, NewDescription(d)), extras)
    case _ => Threw(parameters)
  }

  /** The loop that styles every cell opened by `tag`, accumulating the text as the source does. */
  method StyleTags(x: string, tag: Pattern, style: string) returns (out: string)
    requires |tag.text| > 0
    ensures out == StyledCells(x, tag, style)
  {
    var cells := Split(x, tag);
    ghost var target := [cells[0]] + InjectAll(cells[1..], style);
    out := cells[0];
    var j := 1;
    while j < |cells|
      invariant 1 <= j <= |cells| == |target|
      invariant out == Join(target[..j], tag.text)
    {
      var cell: string;
      if Contains(cells[j], StyleAttr) {
        cell := ReplaceFirst(cells[j], StyleAttr, style);
      } else {
        cell := " " + style + "\"" + cells[j];
      }
      out := out + tag.text;
      out := out + cell;
      NextCell(cells, style, j, tag.text);
      j := j + 1;
    }
    assert target[..j] == target;
  }

  /** One segment styled as the body of the source's loop does it, with `merge` the answer of `tables.includes('style="')`. */
  method StyleSegment(segment: string, merge: bool) returns (styled: string)
    ensures styled == StyledSegment(segment, merge)
  {
    styled := segment;
    var style := if Contains(segment, "h5p-table") then SolidStyle else DoubleStyle;
    if Contains(segment, "border") {
      if merge {
        styled := ReplaceFirst(styled, StyleAttr, style);
      } else {
        styled := " " + style + "\"" + styled;
      }
      styled := StyleTags(styled, HeaderTag, style);
      styled := StyleTags(styled, CellTag, style);
    }
  }

  /** Step 8: the description string is rewritten, and without one `split` is not a function and it throws. */
  method Step(parameters: Value, extras: Value) returns (outcome: Outcome)
    ensures outcome == Upgrade(parameters, extras)
  {
    var d := Description(parameters);
    if !(d.Some? && d.value.Str?) {
      return Threw(parameters);
    }
    var newParams := StyleTables(d.value.s);
    outcome := Finished(Null, WithDescription(parameters, newParams), extras);
  }

  /**
   * The loop of step 8, over the split array `tables` that the source
   * updates in place; the merge test looks at the array as it is at each
   * iteration.
   */
  method StyleTables(description: string) returns (newParams: string)
    ensures newParams == NewDescription(description)
  {
    var split := Split(description, TableTag);
    var tables := new string[|split|](k requires 0 <= k < |split| => split[k]);
    ghost var merge := StyleAttr in split;
    ghost var target := [split[0]] + StyledSegments(split[1..], merge);
    newParams := tables[0];
    var i := 1;
    assert tables[..] == split;
    LoopEntry(split, target, TableTag.text);
    while i < tables.Length
      invariant 1 <= i <= tables.Length == |split| == |target|
      invariant tables[..] == target[..i] + split[i..]
      invariant newParams == Join(target[..i], TableTag.text)
    {
      StyleTableAt(tables, i, split, merge, target);
      JoinNext(target, i, TableTag.text);
      newParams := newParams + "<table" + tables[i];
      i := i + 1;
    }
    assert target[..i] == target;
  }

  /** Before the loop: nothing written yet, and the first segment already in the result. */
  lemma LoopEntry(split: seq<string>, target: seq<string>, sep: string)
    requires 1 <= |split| == |target| && target[0] == split[0]
    ensures split == target[..1] + split[1..] && split[0] == Join(target[..1], sep)
  {
    assert target[..1] == [split[0]];
  }

  /** One more part of the result joined. */
  lemma JoinNext(parts: seq<string>, i: nat, sep: string)
    requires 1 <= i < |parts|
    ensures Join(parts[..i + 1], sep) == Join(parts[..i], sep) + sep + parts[i]
  {
    assert parts[..i + 1] == parts[..i] + [parts[i]];
    JoinSnoc(parts[..i], parts[i], sep);
  }

  /**
   * One iteration of step 8's loop: the segment at `i` is styled, with the
   * merge test asked of the array as it is now, and written back in place.
   */
  method StyleTableAt(tables: array<string>, i: int, ghost split: seq<string>, ghost merge: bool,
                      ghost target: seq<string>)
    requires 1 <= i < tables.Length == |split|
    requires merge == (StyleAttr in split) && target == [split[0]] + StyledSegments(split[1..], merge)
    requires tables[..] == target[..i] + split[i..]
    modifies tables
    ensures tables[..] == target[..i + 1] + split[i + 1..] && tables[i] == target[i]
  {
    assert tables[i] == split[i];
    var includes := StyleAttr in tables[..];
    assert includes == merge by {
      TargetKeepsStyleAttr(split, merge);
      MergeUnchanged(split, target, i);
    }
    var segment := StyleSegment(tables[i], includes);
    assert segment == target[i] by {
      StyledSegmentsAt(split, i, merge);
    }
    ghost var before := tables[..];
    tables[i] := segment;
    assert tables[..] == before[i := segment];
    WriteNext(target, split, i);
  }

  /** Writing the next target element into the array. */
  lemma WriteNext(target: seq<string>, split: seq<string>, i: nat)
    requires i < |split| == |target|
    ensures (target[..i] + split[i..])[i := target[i]] == target[..i + 1] + split[i + 1..]
    ensures target[..i + 1] == target[..i] + [target[i]]
  {
  }

  /** The styled segments are exactly `style="` where the split ones were. */
  lemma TargetKeepsStyleAttr(split: seq<string>, merge: bool)
    requires |split| >= 1
    ensures var target := [split[0]] + StyledSegments(split[1..], merge);
      |target| == |split| && target[0] == split[0] &&
      forall k :: 0 <= k < |split| ==> (target[k] == StyleAttr <==> split[k] == StyleAttr)
  {
    var target := [split[0]] + StyledSegments(split[1..], merge);
    forall k | 1 <= k < |split|
      ensures target[k] == StyleAttr <==> split[k] == StyleAttr
    {
      StyledSegmentsAt(split, k, merge);
      StyledSegmentKeepsStyleAttr(split[k], merge);
    }
  }

  /** Writing styled segments into the array does not change whether it holds `style="`. */
  lemma MergeUnchanged(split: seq<string>, target: seq<string>, i: nat)
    requires i <= |split| == |target|
    requires forall k :: 0 <= k < |split| ==> (target[k] == StyleAttr <==> split[k] == StyleAttr)
    ensures (StyleAttr in target[..i] + split[i..]) == (StyleAttr in split)
  {
    var now := target[..i] + split[i..];
    if StyleAttr in now {
      var k :| 0 <= k < |now| && now[k] == StyleAttr;
      assert split[k] == StyleAttr;
    }
    if StyleAttr in split {
      var k :| 0 <= k < |split| && split[k] == StyleAttr;
      assert now[k] == StyleAttr;
    }
  }

  /** `style="` does not mention `border`. */
  lemma StyleAttrLacksBorder()
    ensures !Contains(StyleAttr, "border")
  {
    NoMatchWithoutFirst(StyleAttr, Literal("border"));
  }

  /** Styling a part lengthens it by at least 19 characters. */
  lemma InjectGrows(part: string, style: string)
    requires IsStyle(style)
    ensures |Inject(part, style)| >= |part| + 19
  {
  }

  /** Joining longer parts gives a longer text. */
  lemma {:induction false} JoinMonotone(ps: seq<string>, qs: seq<string>, sep: string)
    requires |ps| == |qs| && forall j :: 0 <= j < |ps| ==> |ps[j]| <= |qs[j]|
    ensures |Join(ps, sep)| <= |Join(qs, sep)|
    decreases |ps|
  {
    if |ps| > 1 {
      JoinMonotone(ps[..|ps| - 1], qs[..|qs| - 1], sep);
    }
  }

  /** Joining parts of which the `i`-th grew by `n` gives a text longer by at least `n`. */
  lemma {:induction false} JoinGrows(ps: seq<string>, qs: seq<string>, sep: string, i: nat)
    requires |ps| == |qs| && i < |ps| && forall j :: 0 <= j < |ps| ==> |ps[j]| <= |qs[j]|
    ensures |Join(qs, sep)| >= |Join(ps, sep)| + |qs[i]| - |ps[i]|
    decreases |ps|
  {
    var n := |ps| - 1;
    if n > 0 {
      JoinLength(ps, sep);
      JoinLength(qs, sep);
      assert forall j :: 0 <= j < n ==> ps[..n][j] == ps[j] && qs[..n][j] == qs[j];
      if i == n {
        JoinMonotone(ps[..n], qs[..n], sep);
      } else {
        JoinGrows(ps[..n], qs[..n], sep, i);
      }
    }
  }

  /** The length of a join of two or more parts. */
  lemma JoinLength(ps: seq<string>, sep: string)
    requires |ps| > 1
    ensures |Join(ps, sep)| == |Join(ps[..|ps| - 1], sep)| + |sep| + |ps[|ps| - 1]|
  {
  }

  /** Styling cells leaves the text as it is or lengthens it by at least 19 characters. */
  lemma StyledCellsGrows(x: string, tag: Pattern, style: string)
    requires |tag.text| > 0 && IsStyle(style)
    ensures StyledCells(x, tag, style) == x || |StyledCells(x, tag, style)| >= |x| + 19
  {
    var parts := Split(x, tag);
    JoinSplit(x, tag);
    var qs := [parts[0]] + InjectAll(parts[1..], style);
    if |parts| > 1 {
      forall j | 0 <= j < |parts|
        ensures |parts[j]| <= |qs[j]|
      {
        if j > 0 {
          InjectAllAt(parts, j, style);
          InjectGrows(parts[j], style);
        }
      }
      InjectAllAt(parts, 1, style);
      InjectGrows(parts[1], style);
      JoinGrows(parts, qs, tag.text, 1);
    }
  }

  /**
   * A styled segment is exactly `style="` only when the segment was: the
   * in-place updates of `tables` never change the answer of
   * `tables.includes('style="')`.
   */
  lemma StyledSegmentKeepsStyleAttr(segment: string, merge: bool)
    ensures StyledSegment(segment, merge) == StyleAttr <==> segment == StyleAttr
  {
    if Contains(segment, "border") {
      StyleAttrLacksBorder();
      ContainsIff(segment, "border");
      var style := StyleFor(segment);
      var t := TableStyled(segment, merge, style);
      var mid := StyledCells(t, HeaderTag, style);
      StyledCellsGrows(t, HeaderTag, style);
      StyledCellsGrows(mid, CellTag, style);
      assert t == segment || |t| >= |segment| + 19;
    }
  }

  /** Segments without `border` are left alone, so then the description is unchanged. */
  lemma NoBorderUnchanged(d: string)
    requires forall k :: 1 <= k < |Split(d, TableTag)| ==> !Contains(Split(d, TableTag)[k], "border")
    ensures NewDescription(d) == d
  {
    var tables := Split(d, TableTag);
    var styled := [tables[0]] + StyledSegments(tables[1..], StyleAttr in tables);
    forall k | 0 <= k < |tables|
      ensures styled[k] == tables[k]
    {
      if k > 0 {
        StyledSegmentsAt(tables, k, StyleAttr in tables);
      }
    }
    assert styled == tables;
    JoinSplit(d, TableTag);
  }

  /** A joined text starts with its first part. */
  lemma {:induction false} JoinStartsWith(ps: seq<string>, sep: string)
    requires |ps| >= 1
    ensures StartsWith(Join(ps, sep), ps[0])
    decreases |ps|
  {
    if |ps| > 1 {
      JoinStartsWith(ps[..|ps| - 1], sep);
      var j := Join(ps[..|ps| - 1], sep);
      assert (j + sep + ps[|ps| - 1])[..|ps[0]|] == j[..|ps[0]|];
    }
  }

  /** The text before the first `<table` is kept as it is, in front. */
  lemma PrefixKept(d: string)
    ensures var first := Split(d, TableTag)[0];
      first == (match IndexOf(d, TableTag) case None => d case Some(k) => d[..k]) &&
      !Contains(first, "<table") && StartsWith(d, first) && StartsWith(NewDescription(d), first)
  {
    var tables := Split(d, TableTag);
    SplitPartsFree(d, "<table");
    JoinSplit(d, TableTag);
    JoinStartsWith(tables, TableTag.text);
    JoinStartsWith([tables[0]] + StyledSegments(tables[1..], StyleAttr in tables), TableTag.text);
  }

  /** The style at the front of a styled segment lacks `<`. */
  lemma NewAttributeLacksTag(style: string)
    requires IsStyle(style)
    ensures Lacks(NewAttribute(style), '<')
  {
    assert Lacks(" ", '<') && Lacks(StyleAttr, '<') && Lacks("\"", '<');
    LacksConcat(" ", StyleAttr, '<');
    if style == SolidStyle {
      assert Lacks("border-style:solid;", '<');
      LacksConcat(" " + StyleAttr, "border-style:solid;", '<');
    } else {
      assert Lacks("border-style:double;", '<');
      assert Lacks("border-width:0.2em;", '<');
      assert Lacks("border-collapse:collapse;", '<');
      LacksConcat(" " + StyleAttr, "border-style:double;", '<');
      LacksConcat(" " + StyleAttr + "border-style:double;", "border-width:0.2em;", '<');
      LacksConcat(" " + StyleAttr + "border-style:double;" + "border-width:0.2em;", "border-collapse:collapse;", '<');
    }
    LacksConcat(" " + style, "\"", '<');
  }

  /** Styling cells keeps any beginning of the text that has no `<` in it. */
  lemma StyledCellsKeepsFront(x: string, tag: Pattern, style: string, front: string)
    requires |tag.text| > 0 && tag.text[0] == '<'
    requires StartsWith(x, front) && Lacks(front, '<')
    ensures StartsWith(StyledCells(x, tag, style), front)
  {
    var parts := Split(x, tag);
    match IndexOf(x, tag)
    case None =>
    case Some(k) =>
      assert x[k..][..|tag.text|] == tag.text;
      assert x[k] == '<';
      assert k >= |front|;
      assert parts[0] == x[..k];
      assert parts[0][..|front|] == front;
    var qs := [parts[0]] + InjectAll(parts[1..], style);
    JoinStartsWith(qs, tag.text);
    assert StyledCells(x, tag, style)[..|parts[0]|] == parts[0];
  }

  /**
   * Unless the split array has an element that is exactly `style="`, a
   * segment that mentions `border` starts with a new style attribute, right
   * after its `<table`.
   */
  lemma NewTableAttribute(segment: string)
    requires Contains(segment, "border")
    ensures StartsWith(StyledSegment(segment, false), NewAttribute(StyleFor(segment)))
  {
    var style := StyleFor(segment);
    var front := NewAttribute(style);
    NewAttributeLacksTag(style);
    var t := TableStyled(segment, false, style);
    assert t[..|front|] == front;
    StyledCellsKeepsFront(t, HeaderTag, style, front);
    StyledCellsKeepsFront(StyledCells(t, HeaderTag, style), CellTag, style, front);
  }

  /** A style starts with `style="`, so putting it in place of `style="` only inserts text. */
  lemma StyleExtendsAttr(style: string)
    requires IsStyle(style)
    ensures Sub(StyleAttr, style)
  {
    assert style == StyleAttr + style[7..];
    SubRefl(StyleAttr);
    SubConcat(StyleAttr, StyleAttr, [], style[7..]);
    assert StyleAttr + [] == StyleAttr;
  }

  /** Styling a cell only inserts text. */
  lemma SubInject(part: string, style: string)
    requires Sub(StyleAttr, style)
    ensures Sub(part, Inject(part, style))
  {
    if Contains(part, StyleAttr) {
      SubReplaceFirst(part, StyleAttr, style);
    } else {
      SubRefl(part);
      SubPrepend(NewAttribute(style), part, part);
    }
  }

  /** Styling all cells only inserts text. */
  lemma SubStyledCells(x: string, tag: Pattern, style: string)
    requires |tag.text| > 0 && Sub(StyleAttr, style)
    ensures Sub(x, StyledCells(x, tag, style))
  {
    var parts := Split(x, tag);
    JoinSplit(x, tag);
    var qs := [parts[0]] + InjectAll(parts[1..], style);
    forall j | 0 <= j < |parts|
      ensures Sub(parts[j], qs[j])
    {
      if j == 0 {
        SubRefl(parts[0]);
      } else {
        InjectAllAt(parts, j, style);
        SubInject(parts[j], style);
      }
    }
    SubJoin(parts, qs, tag.text);
  }

  /** Styling a segment only inserts text. */
  lemma SubStyledSegment(segment: string, merge: bool)
    ensures Sub(segment, StyledSegment(segment, merge))
  {
    if Contains(segment, "border") {
      var style := StyleFor(segment);
      var t := TableStyled(segment, merge, style);
      var mid := StyledCells(t, HeaderTag, style);
      StyleExtendsAttr(style);
      if merge {
        SubReplaceFirst(segment, StyleAttr, style);
      } else {
        SubRefl(segment);
        SubPrepend(NewAttribute(style), segment, segment);
      }
      SubStyledCells(t, HeaderTag, style);
      SubStyledCells(mid, CellTag, style);
      SubTrans(segment, t, mid);
      SubTrans(segment, mid, StyledSegment(segment, merge));
    } else {
      SubRefl(segment);
    }
  }

  /**
   * The new description only inserts text into the old one: deleting the
   * inserted styles gives the old description back.
   */
  lemma SubNewDescription(d: string)
    ensures Sub(d, NewDescription(d))
  {
    var tables := Split(d, TableTag);
    JoinSplit(d, TableTag);
    var merge := StyleAttr in tables;
    var qs := [tables[0]] + StyledSegments(tables[1..], merge);
    forall j | 0 <= j < |tables|
      ensures Sub(tables[j], qs[j])
    {
      if j == 0 {
        SubRefl(tables[0]);
      } else {
        StyledSegmentsAt(tables, j, merge);
        SubStyledSegment(tables[j], merge);
      }
    }
    SubJoin(tables, qs, TableTag.text);
  }

  /**
   * `styled` keeps the first segment, keeps every later segment without
   * `border`, and only inserts text into every later segment with it.
   */
  predicate StyledFrom(tables: seq<string>, styled: seq<string>)
  {
    |styled| == |tables| >= 1 && styled[0] == tables[0] &&
    forall k :: 1 <= k < |tables| ==>
      (Contains(tables[k], "border") ==> Sub(tables[k], styled[k])) &&
      (!Contains(tables[k], "border") ==> styled[k] == tables[k])
  }

  /** The new description is the old one's segments, in order, each styled or kept, between the same `<table` tags. */
  lemma SegmentsKept(d: string)
    ensures exists styled :: StyledFrom(Split(d, TableTag), styled) && NewDescription(d) == Join(styled, "<table")
  {
    var tables := Split(d, TableTag);
    var styled := [tables[0]] + StyledSegments(tables[1..], StyleAttr in tables);
    forall k | 1 <= k < |tables|
      ensures (Contains(tables[k], "border") ==> Sub(tables[k], styled[k])) &&
        (!Contains(tables[k], "border") ==> styled[k] == tables[k])
    {
      StyledSegmentsAt(tables, k, StyleAttr in tables);
      SubStyledSegment(tables[k], StyleAttr in tables);
    }
    assert StyledFrom(tables, styled);
    assert NewDescription(d) == Join(styled, "<table");
  }

  /** Text without a `<` has no cell to style. */
  lemma TagFreeUntouched(x: string, tag: Pattern, style: string)
    requires |tag.text| > 0 && tag.text[0] == '<' && Lacks(x, '<')
    ensures StyledCells(x, tag, style) == x
  {
    NoMatchWithoutFirst(x, tag);
  }

  /**
   * A description that is a single bordered table tag, not an H5P table,
   * whose attributes contain no `<` (so no cells), after text without a `<`
   * that is not exactly `style="`: the table gets the double border style as
   * a new attribute, whatever attributes it already has.
   */
  lemma LoneTableStyled(prefix: string, segment: string)
    requires Lacks(prefix, '<') && prefix != StyleAttr
    requires Lacks(segment, '<') && Contains(segment, "border") && !Contains(segment, "h5p-table")
    ensures NewDescription(prefix + "<table" + segment) == prefix + "<table" + NewAttribute(DoubleStyle) + segment
  {
    LoneTable(prefix, segment);
  }

  /**
   * A bordered table tag that already has a `style="` attribute gets a
   * second one in front of it, because the merge test asks whether an
   * element of the array is `style="`, not whether the segment contains it.
   */
  lemma TableStyleDuplicated(prefix: string, segment: string)
    requires Lacks(prefix, '<') && prefix != StyleAttr
    requires Lacks(segment, '<') && Contains(segment, "border") && Contains(segment, StyleAttr)
    ensures NewDescription(prefix + "<table" + segment) == prefix + "<table" + NewAttribute(StyleFor(segment)) + segment
    ensures var tag := "<table" + NewAttribute(StyleFor(segment)) + segment;
      OccursAt(tag, StyleAttr, |"<table "|) && Contains(tag[|"<table" + NewAttribute(StyleFor(segment))|..], StyleAttr)
  {
    LoneTable(prefix, segment);
    SecondStyle(StyleFor(segment), segment);
  }

  /**
   * When the text before the table is exactly `style="`, the merge test
   * holds, and the style is merged into the tag's own `style="` instead.
   */
  lemma TableStyleMerged(segment: string)
    requires Lacks(segment, '<') && Contains(segment, "border") && Contains(segment, StyleAttr)
    ensures NewDescription(StyleAttr + "<table" + segment) ==
      StyleAttr + "<table" + ReplaceFirst(segment, StyleAttr, StyleFor(segment))
  {
    assert Lacks(StyleAttr, '<');
    LoneSplit(StyleAttr, segment);
    TwoParts(StyleAttr + "<table" + segment, StyleAttr, segment);
    MergedSegment(segment);
  }

  /** A bordered segment without cells, merged: only the first `style="` is replaced. */
  lemma MergedSegment(segment: string)
    requires Lacks(segment, '<') && Contains(segment, "border") && Contains(segment, StyleAttr)
    ensures StyledSegment(segment, true) == ReplaceFirst(segment, StyleAttr, StyleFor(segment))
  {
    var style := StyleFor(segment);
    ReplaceFirstSplits(segment, StyleAttr, style);
    var k := IndexOf(segment, Literal(StyleAttr)).value;
    var t := ReplaceFirst(segment, StyleAttr, style);
    assert Lacks(segment[..k], '<') && Lacks(segment[k + |StyleAttr|..], '<');
    assert Lacks(style, '<') by {
      NewAttributeLacksTag(style);
      assert style == NewAttribute(style)[1..|style| + 1];
    }
    LacksConcat(segment[..k], style, '<');
    LacksConcat(segment[..k] + style, segment[k + |StyleAttr|..], '<');
    TagFreeUntouched(t, HeaderTag, style);
    TagFreeUntouched(t, CellTag, style);
  }

  /** The new attribute's `style="` sits right after `<table `, in front of the segment's own. */
  lemma SecondStyle(style: string, segment: string)
    requires IsStyle(style) && Contains(segment, StyleAttr)
    ensures var out := "<table" + NewAttribute(style) + segment;
      OccursAt(out, StyleAttr, |"<table "|) && Contains(out[|"<table" + NewAttribute(style)|..], StyleAttr)
  {
    var front := "<table" + NewAttribute(style);
    NewStyleAt(style, segment);
    assert (front + segment)[|front|..] == segment;
  }

  /** The new attribute's `style="` starts right after `<table `. */
  lemma NewStyleAt(style: string, segment: string)
    requires IsStyle(style)
    ensures OccursAt("<table" + NewAttribute(style) + segment, StyleAttr, |"<table "|)
  {
    var front := "<table" + NewAttribute(style);
    var out := front + segment;
    StyleOpens(style);
    assert front == "<table " + style + "\"";
    assert out[7..7 + |StyleAttr|] == front[7..7 + |StyleAttr|];
  }

  /** Both styles start with `style="`. */
  lemma StyleOpens(style: string)
    requires IsStyle(style)
    ensures |StyleAttr| <= |style| && style[..|StyleAttr|] == StyleAttr
  {
    if style == SolidStyle {
      assert SolidStyle[..|StyleAttr|] == StyleAttr;
    } else {
      assert DoubleStyle[..|StyleAttr|] == StyleAttr;
    }
  }

  /** A lone bordered table tag without cells, after text that is not `style="`, gets its style as a new attribute. */
  lemma LoneTable(prefix: string, segment: string)
    requires Lacks(prefix, '<') && prefix != StyleAttr
    requires Lacks(segment, '<') && Contains(segment, "border")
    ensures NewDescription(prefix + "<table" + segment) == prefix + "<table" + NewAttribute(StyleFor(segment)) + segment
  {
    LoneSplit(prefix, segment);
    TwoParts(prefix + "<table" + segment, prefix, segment);
    assert StyleAttr != segment by {
      if segment == StyleAttr {
        StyleAttrLacksBorder();
      }
    }
    LoneSegment(segment);
  }

  /** A description with one `<table`: the text before it, the tag, and the styled segment. */
  lemma TwoParts(d: string, head: string, segment: string)
    requires Split(d, TableTag) == [head, segment]
    ensures NewDescription(d) == head + "<table" + StyledSegment(segment, head == StyleAttr || segment == StyleAttr)
  {
    var tables := Split(d, TableTag);
    assert tables[1..] == [segment];
    assert StyledSegments(tables[1..], StyleAttr in tables) == [StyledSegment(segment, StyleAttr in tables)];
    var last := StyledSegment(segment, StyleAttr in tables);
    assert [tables[0]] + [last] == [head, last];
    assert [head, last][..1] == [head];
    assert Join([head, last], TableTag.text) == Join([head], TableTag.text) + TableTag.text + last;
    assert (StyleAttr in tables) == (head == StyleAttr || segment == StyleAttr);
  }

  /** Text without `<`, a table tag, and more text without `<` split into the two texts. */
  lemma LoneSplit(prefix: string, segment: string)
    requires Lacks(prefix, '<') && Lacks(segment, '<')
    ensures Split(prefix + "<table" + segment, TableTag) == [prefix, segment]
  {
    var d := prefix + "<table" + segment;
    assert MatchAt(d, |prefix|, TableTag) by {
      assert d[|prefix|..] == "<table" + segment;
    }
    forall j | 0 <= j < |prefix|
      ensures !MatchAt(d, j, TableTag)
    {
      assert d[j..][0] == prefix[j];
    }
    assert d[..|prefix|] == prefix;
    assert d[|prefix| + 6..] == segment;
    NoMatchWithoutFirst(segment, TableTag);
  }

  /** A bordered segment without cells, not merged: only the new attribute is added. */
  lemma LoneSegment(segment: string)
    requires Lacks(segment, '<') && Contains(segment, "border")
    ensures StyledSegment(segment, false) == NewAttribute(StyleFor(segment)) + segment
  {
    var t := NewAttribute(StyleFor(segment)) + segment;
    NewAttributeLacksTag(StyleFor(segment));
    LacksConcat(NewAttribute(StyleFor(segment)), segment, '<');
    TagFreeUntouched(t, HeaderTag, StyleFor(segment));
    TagFreeUntouched(t, CellTag, StyleFor(segment));
  }

  /**
   * Step 8 throws exactly when there is no description string, and then
   * changes nothing; otherwise it reports once, with a null error and the
   * same extras, and only the description changes.
   */
  lemma Reports(parameters: Value, extras: Value)
    ensures Upgrade(parameters, extras).Threw? <==> !(Description(parameters).Some? && Description(parameters).value.Str?)
    ensures Upgrade(parameters, extras).Threw? ==> Upgrade(parameters, extras).parameters == parameters
    ensures Upgrade(parameters, extras).Finished? ==>
      var out := Upgrade(parameters, extras);
      out.error == Null && out.extras == extras &&
      Description(out.parameters) == Some(Str(NewDescription(Description(parameters).value.s)))
  {
  }
}
