/**
 * The status bar of an Interactive Book: the rule that turns a request for
 * the next or previous chapter into a `newChapter` or `viewSummary` event,
 * the edge rule that disables the Previous and Next buttons, the progress
 * text built from the `@page`/`@total` template, and the merging of
 * caller-supplied texts over the defaults.
 */
module Status {
  import opened Wrappers
  import opened Text
  import opened ParseInt

  /** A chapter as the handler reads it: its instance's sub-content id, and its title. */
  datatype Chapter = Chapter(subContentId: string, title: string)

  /**
   * What the status bar reads from the book that owns it: `contentId`,
   * `activeChapter`, `chapters`, and the answer of `hasSummary()`.
   */
  datatype Parent = Parent(contentId: int, activeChapter: int, chapters: seq<Chapter>, hasSummary: bool)

  /** The event input: `h5pbookid`, and `section` and `chapter` when they are set. */
  datatype Payload = Payload(h5pbookid: int, section: Option<string>, chapter: Option<string>)

  /**
   * What one `seqChapter` request leads to: one event triggered on the
   * parent, nothing, or a TypeError when the chapter to go to does not exist.
   */
  datatype Navigation =
    | NewChapter(payload: Payload)
    | ViewSummary(payload: Payload)
    | NoEvent
    | TypeError

  /** The prefix of a chapter's element id. */
  const ChapterPrefix: string := "h5p-interactive-book-chapter-"

  /** The element id of a chapter. */
  function ChapterId(c: Chapter): (id: string)
    ensures StartsWith(id, ChapterPrefix) && id[|ChapterPrefix|..] == c.subContentId
  {
    ChapterPrefix + c.subContentId
  }

  /** The event input before a chapter is chosen. */
  function Base(parent: Parent, toTop: bool): Payload
  {
    Payload(parent.contentId, if toTop then Some("top") else None, None)
  }

  /** The event input naming chapter `k`, or a TypeError when there is no chapter `k`. */
  function GoTo(parent: Parent, toTop: bool, k: int): Navigation
  {
    if 0 <= k < |parent.chapters| then
      NewChapter(Base(parent, toTop).(chapter := Some(ChapterId(parent.chapters[k]))))
    else TypeError
  }

  /**
   * The `seqChapter` handler. `toTop` is the truthiness of the request's
   * `toTop`. Only the directions `next` and `prev` do anything; `next`
   * past the last chapter views the summary when the book has one.
   */
  function SeqChapter(parent: Parent, direction: string, toTop: bool): (r: Navigation)
    ensures r.NewChapter? || r.ViewSummary? ==>
      r.payload.h5pbookid == parent.contentId && (r.payload.section == Some("top") <==> toTop) &&
      (r.payload.section == None <==> !toTop)
    ensures r.ViewSummary? ==> r.payload.chapter == None
    ensures r.NewChapter? ==> r.payload.chapter.Some? && StartsWith(r.payload.chapter.value, ChapterPrefix)
    ensures direction != "next" && direction != "prev" ==> r == NoEvent
  {
    var a := parent.activeChapter;
    if direction == "next" then
      if a + 1 < |parent.chapters| then GoTo(parent, toTop, a + 1)
      else if parent.hasSummary && a + 1 == |parent.chapters| then ViewSummary(Base(parent, toTop))
      else NoEvent
    else if direction == "prev" then
      if a > 0 then GoTo(parent, toTop, a - 1) else NoEvent
    else NoEvent
  }

  /** `next` inside the book goes to the following chapter. */
  lemma NextChapter(parent: Parent, toTop: bool)
    requires 0 <= parent.activeChapter + 1 < |parent.chapters|
    ensures var r := SeqChapter(parent, "next", toTop);
      r.NewChapter? && r.payload.chapter == Some(ChapterId(parent.chapters[parent.activeChapter + 1]))
  {
  }

  /** `next` on the last chapter views the summary exactly when there is one, and otherwise does nothing. */
  lemma NextAtEnd(parent: Parent, toTop: bool)
    requires parent.activeChapter + 1 == |parent.chapters|
    ensures var r := SeqChapter(parent, "next", toTop);
      !r.NewChapter? && (r.ViewSummary? <==> parent.hasSummary) && (!parent.hasSummary ==> r == NoEvent)
  {
  }

  /** `prev` goes to the preceding chapter exactly when there is one before the active chapter. */
  lemma PrevChapter(parent: Parent, toTop: bool)
    requires parent.activeChapter <= |parent.chapters|
    ensures var r := SeqChapter(parent, "prev", toTop);
      !r.ViewSummary? && !r.TypeError? &&
      (r.NewChapter? <==> parent.activeChapter > 0) &&
      (r.NewChapter? ==> r.payload.chapter == Some(ChapterId(parent.chapters[parent.activeChapter - 1])))
  {
  }

  /** `prev` undoes `next`: from the chapter `next` went to, `prev` names the chapter it came from. */
  lemma PrevUndoesNext(parent: Parent, toTop: bool)
    requires 0 <= parent.activeChapter && parent.activeChapter + 1 < |parent.chapters|
    ensures var there := parent.(activeChapter := parent.activeChapter + 1);
      SeqChapter(there, "prev", toTop) == NewChapter(Base(parent, toTop).(chapter := Some(ChapterId(parent.chapters[parent.activeChapter]))))
  {
  }

  /** The two arrow buttons. */
  datatype Arrow = Previous | Next

  /** `Object.assign({}, defaults, given || {})`: the given texts override the defaults, key by key. */
  function Merge(defaults: map<string, string>, given: Option<map<string, string>>): (r: map<string, string>)
    ensures r.Keys == defaults.Keys + (if given.Some? then given.value.Keys else {})
    ensures forall k :: k in r ==>
      r[k] == if given.Some? && k in given.value then given.value[k] else defaults[k]
  {
    if given.Some? then defaults + given.value else defaults
  }

  /** The default button and label texts. */
  const DefaultL10n: map<string, string> := map["page" := "Page", "next" := "Next", "previous" := "Previous"]

  /** The default accessibility texts; `progress` is the template of the progress text. */
  const DefaultA11y: map<string, string> := map["progress" := "Page @page of @total", "menu" := "Toggle navigation menu"]

  /** The progress text: the first `@page` replaced by the page, then the first `@total` by the total. */
  function ProgressText(template: string, page: int, total: int): string
  {
    ReplaceFirst(ReplaceFirst(template, "@page", IntToString(page)), "@total", IntToString(total))
  }

  /** A rendered number has no `@` in it. */
  lemma NumberLacksAt(n: int)
    ensures Lacks(IntToString(n), '@')
  {
  }

  /**
   * A template that mentions `@page` and then `@total`, with no other `@`
   * before them, reads the page and the total in their places.
   */
  lemma ProgressFilled(a: string, b: string, c: string, page: int, total: int)
    requires Lacks(a, '@') && Lacks(b, '@')
    ensures ProgressText(a + "@page" + b + "@total" + c, page, total) ==
      a + IntToString(page) + b + IntToString(total) + c
  {
    var p := IntToString(page);
    var t := IntToString(total);
    ReplaceFirstAfter(a, "@page", b + "@total" + c, p);
    assert a + "@page" + b + "@total" + c == a + "@page" + (b + "@total" + c);
    NumberLacksAt(page);
    LacksConcat(a, p, '@');
    LacksConcat(a + p, b, '@');
    ReplaceFirstAfter(a + p + b, "@total", c, t);
    assert a + p + (b + "@total" + c) == a + p + b + "@total" + c;
  }

  /**
   * A translation may name the total first: a template that mentions
   * `@total` and then `@page`, with no other `@` before them, still reads
   * each number in its place (`@total / @page` gives `10 / 3`).
   */
  lemma ProgressFilledTotalFirst(a: string, b: string, c: string, page: int, total: int)
    requires Lacks(a, '@') && Lacks(b, '@')
    ensures ProgressText(a + "@total" + b + "@page" + c, page, total) ==
      a + IntToString(total) + b + IntToString(page) + c
  {
    var p := IntToString(page);
    var t := IntToString(total);
    PageAfterTotal(a, b, c, p);
    ReplaceFirstAfter(a, "@total", b + p + c, t);
    assert a + t + (b + p + c) == a + t + b + p + c;
  }

  /** The first `@page` of such a template is the one after `@total`. */
  lemma PageAfterTotal(a: string, b: string, c: string, p: string)
    requires Lacks(a, '@') && Lacks(b, '@')
    ensures ReplaceFirst(a + "@total" + b + "@page" + c, "@page", p) == a + "@total" + (b + p + c)
  {
    NoPageBefore(a, b);
    ReplaceFirstAt(a + "@total" + b, "@page", c, p);
    Regroup(a, "@total", b, p, c);
  }

  /** Five texts in a row, the last three grouped. */
  lemma Regroup(a: string, t: string, b: string, p: string, c: string)
    ensures a + t + b + p + c == a + t + (b + p + c)
  {
  }

  /** Before the `@page` that follows `@total`, the template has no `@page`. */
  lemma NoPageBefore(a: string, b: string)
    requires Lacks(a, '@') && Lacks(b, '@')
    ensures !Contains(a + "@total" + b + "@page"[..4], "@page")
  {
    assert "@page"[..4] == "@pag";
    var s := a + "@total" + b + "@pag";
    ContainsIff(s, "@page");
    AtSigns(a, b);
    OccurrenceChars(s, "@page");
    forall k | 0 <= k
      ensures !OccursAt(s, "@page", k)
    {
      if k == |a| {
        assert s[k + 1] != "@page"[1];
      } else if k < |s| - 4 {
        assert s[k] != "@page"[0];
      }
    }
  }

  /** An occurrence spells out its text character by character. */
  lemma OccurrenceChars(s: string, t: string)
    ensures forall k, j :: OccursAt(s, t, k) && 0 <= j < |t| ==> s[k + j] == t[j]
  {
    forall k, j | OccursAt(s, t, k) && 0 <= j < |t|
      ensures s[k + j] == t[j]
    {
      assert s[k..k + |t|][j] == s[k + j];
    }
  }

  /** `a@totalb@pag` has an `@` only where `@total` and `@pag` start. */
  lemma AtSigns(a: string, b: string)
    requires Lacks(a, '@') && Lacks(b, '@')
    ensures var s := a + "@total" + b + "@pag";
      s[|a| + 1] == 't' && forall k :: 0 <= k < |s| && k != |a| && k != |s| - 4 ==> s[k] != '@'
  {
    var s := a + "@total" + b + "@pag";
    assert s[|a| + 1] == "@total"[1];
    forall k | 0 <= k < |s| && k != |a| && k != |s| - 4
      ensures s[k] != '@'
    {
      if k < |a| {
        assert s[k] == a[k];
      } else if k < |a| + 6 {
        assert s[k] == "@total"[k - |a|];
      } else if k < |a| + 6 + |b| {
        assert s[k] == b[k - |a| - 6];
      } else {
        assert s[k] == "@pag"[k - |s| + 4];
      }
    }
  }

  /** The default template reads `Page <page> of <total>`. */
  lemma DefaultProgress(page: int, total: int)
    ensures ProgressText(DefaultA11y["progress"], page, total) == "Page " + IntToString(page) + " of " + IntToString(total)
  {
    assert DefaultA11y["progress"] == "Page " + "@page" + " of " + "@total" + "";
    assert Lacks("Page ", '@') && Lacks(" of ", '@');
    ProgressFilled("Page ", " of ", "", page, total);
  }

  /** A template without placeholders is shown as it is. */
  lemma ProgressWithoutPlaceholders(template: string, page: int, total: int)
    requires !Contains(template, "@page") && !Contains(template, "@total")
    ensures ProgressText(template, page, total) == template
  {
  }

  /** The status bar's own state: its texts, what it shows, and whether each arrow button is disabled. */
  class StatusBar {
    var totalChapters: int
    var l10n: map<string, string>
    var a11y: map<string, string>
    /** The page number shown. */
    var current: string
    /** The progress text read out to screen readers. */
    var hiddenButRead: string
    /** The title of the progress bar. */
    var progressTitle: string
    /** The chapter title shown, also its `title` attribute. */
    var chapterTitle: string
    var previousDisabled: bool
    var nextDisabled: bool

    /** Every text the status bar reads has a value. */
    predicate Valid()
      reads this
    {
      "page" in l10n && "next" in l10n && "previous" in l10n && "progress" in a11y && "menu" in a11y
    }

    /** The caller's `l10n` and `a11y` texts are merged over the defaults; the buttons start enabled. */
    constructor(totalChapters: int, l10n: Option<map<string, string>>, a11y: Option<map<string, string>>)
      ensures Valid()
      ensures this.totalChapters == totalChapters
      ensures this.l10n == Merge(DefaultL10n, l10n) && this.a11y == Merge(DefaultA11y, a11y)
      ensures current == "" && hiddenButRead == "" && progressTitle == "" && chapterTitle == ""
      ensures !previousDisabled && !nextDisabled
    {
      this.totalChapters := totalChapters;
      this.l10n := Merge(DefaultL10n, l10n);
      this.a11y := Merge(DefaultA11y, a11y);
      current := "";
      hiddenButRead := "";
      progressTitle := "";
      chapterTitle := "";
      previousDisabled := false;
      nextDisabled := false;
    }

    /** Disable or enable one arrow button; the other keeps its state. */
    method SetButtonStatus(target: Arrow, disable: bool)
      modifies this`previousDisabled, this`nextDisabled
      ensures target == Previous ==> previousDisabled == disable && nextDisabled == old(nextDisabled)
      ensures target == Next ==> nextDisabled == disable && previousDisabled == old(previousDisabled)
    {
      if target == Previous {
        previousDisabled := disable;
      } else {
        nextDisabled := disable;
      }
    }

    /**
     * Show the active chapter: its number, the progress text, its title,
     * and the arrow buttons enabled only where there is a chapter to go to.
     * Without a chapter at the active index, reading its title throws
     * before anything changes.
     */
    method UpdateStatusBar(parent: Parent) returns (threw: bool)
      requires Valid()
      modifies this`current, this`hiddenButRead, this`progressTitle, this`chapterTitle,
        this`previousDisabled, this`nextDisabled
      ensures Valid()
      ensures threw <==> !(0 <= parent.activeChapter < |parent.chapters|)
      ensures threw ==> (current == old(current) && hiddenButRead == old(hiddenButRead) &&
                         progressTitle == old(progressTitle) && chapterTitle == old(chapterTitle) &&
                         previousDisabled == old(previousDisabled) && nextDisabled == old(nextDisabled))
      ensures !threw ==>
        var page := parent.activeChapter + 1;
        current == IntToString(page) &&
        hiddenButRead == ProgressText(a11y["progress"], page, totalChapters) &&
        progressTitle == hiddenButRead &&
        chapterTitle == parent.chapters[parent.activeChapter].title &&
        (previousDisabled <==> parent.activeChapter <= 0) &&
        (nextDisabled <==> parent.activeChapter + 1 >= totalChapters)
    {
      var currentChapter := parent.activeChapter + 1;
      if !(0 <= currentChapter - 1 < |parent.chapters|) {
        return true;
      }
      var title := parent.chapters[currentChapter - 1].title;
      current := IntToString(currentChapter);
      hiddenButRead := ProgressText(a11y["progress"], currentChapter, totalChapters);
      progressTitle := ProgressText(a11y["progress"], currentChapter, totalChapters);
      chapterTitle := title;
      if parent.activeChapter <= 0 {
        SetButtonStatus(Previous, true);
      } else {
        SetButtonStatus(Previous, false);
      }
      if parent.activeChapter + 1 >= totalChapters {
        SetButtonStatus(Next, true);
      } else {
        SetButtonStatus(Next, false);
      }
      threw := false;
    }
  }

  /**
   * With the total the book's chapter count, a disabled button is exactly one
   * whose request would not move to another chapter: Previous on the first
   * chapter, Next on the last.
   */
  lemma DisabledMeansNoMove(parent: Parent, toTop: bool)
    requires 0 <= parent.activeChapter < |parent.chapters|
    ensures parent.activeChapter <= 0 <==> !SeqChapter(parent, "prev", toTop).NewChapter?
    ensures parent.activeChapter + 1 >= |parent.chapters| <==> !SeqChapter(parent, "next", toTop).NewChapter?
  {
  }
}
