/**
 * The global regular-expression replacement `d.replace(/<p[^>]*>/g, centred)`
 * that the cover upgrade applies to a description which starts with `<p`:
 * every opening tag that starts with `<p` (so `<pre>` and `<param>` too) up
 * to its first `>` is overwritten by a centred paragraph tag, whatever
 * attributes it had. A `<p` with no `>` anywhere after it is not a match.
 */
module Paragraphs {
  import opened Wrappers
  import opened Text

  /** The opening tag that every match is replaced by. */
  const Centred: string := "<p style=\"text-align: center;\">"

  /** The position of the first `>` in `s`. */
  function FirstClose(s: string): (r: Option<nat>)
    ensures r.Some? ==> r.value < |s| && s[r.value] == '>' && forall i :: 0 <= i < r.value ==> s[i] != '>'
    ensures r.None? ==> forall i :: 0 <= i < |s| ==> s[i] != '>'
  {
    if s == [] then None
    else if s[0] == '>' then Some(0)
    else match FirstClose(s[1..]) case None => None case Some(k) => Some(k + 1)
  }

  /** The length of the match of `<p[^>]*>` at the very start of `s`, if there is one. */
  function TagAt(s: string): (r: Option<nat>)
    ensures r.Some? ==> 3 <= r.value <= |s| && StartsWith(s, "<p") && s[r.value - 1] == '>'
    ensures r.Some? ==> forall i :: 2 <= i < r.value - 1 ==> s[i] != '>'
  {
    if StartsWith(s, "<p") then
      match FirstClose(s[2..])
      case None => None
      case Some(k) => Some(k + 3)
    else None
  }

  /** `s.replace(/<p[^>]*>/g, Centred)`: the scan of the global replacement, left to right. */
  function CentreParagraphs(s: string): string
    decreases |s|
  {
    if s == [] then []
    else match TagAt(s)
      case Some(n) => Centred + CentreParagraphs(s[n..])
      case None => [s[0]] + CentreParagraphs(s[1..])
  }

  /** A piece of markup as the replacement sees it: a matched tag or a character left alone. */
  datatype Piece = Text(c: char) | Tag(tag: string)

  /** `s` cut into matched tags and the characters between them, as the scan meets them. */
  function Pieces(s: string): seq<Piece>
    decreases |s|
  {
    if s == [] then []
    else match TagAt(s)
      case Some(n) => [Tag(s[..n])] + Pieces(s[n..])
      case None => [Text(s[0])] + Pieces(s[1..])
  }

  /** The text that pieces stand for. */
  function Render(ps: seq<Piece>): string
  {
    if ps == [] then []
    else (match ps[0] case Text(c) => [c] case Tag(t) => t) + Render(ps[1..])
  }

  /** The same pieces with every tag replaced by the centred tag. */
  function CentreTags(ps: seq<Piece>): (r: seq<Piece>)
    ensures |r| == |ps|
    ensures forall i :: 0 <= i < |ps| ==> (ps[i].Text? ==> r[i] == ps[i]) && (ps[i].Tag? ==> r[i] == Tag(Centred))
  {
    if ps == [] then []
    else [if ps[0].Tag? then Tag(Centred) else ps[0]] + CentreTags(ps[1..])
  }

  /** Cutting into pieces loses nothing. */
  lemma {:induction false} RenderPieces(s: string)
    ensures Render(Pieces(s)) == s
    decreases |s|
  {
    if s != [] {
      match TagAt(s)
      case Some(n) =>
        RenderPieces(s[n..]);
        assert [Tag(s[..n])] + Pieces(s[n..]) == Pieces(s);
        assert s == s[..n] + s[n..];
      case None =>
        RenderPieces(s[1..]);
        assert [Text(s[0])] + Pieces(s[1..]) == Pieces(s);
        assert s == [s[0]] + s[1..];
    }
  }

  /** The centred tag is itself a complete match. */
  lemma CentredIsTag(rest: string)
    ensures TagAt(Centred + rest) == Some(|Centred|)
    ensures (Centred + rest)[|Centred|..] == rest && (Centred + rest)[..|Centred|] == Centred
  {
    var s := Centred + rest;
    assert s[..2] == "<p";
    assert s[2..] == Centred[2..] + rest;
    CentredCloses();
    FirstCloseAppend(Centred[2..], rest);
  }

  /** The first `>` after the `<p` of the centred tag is its last character. */
  lemma CentredCloses()
    ensures FirstClose(Centred[2..]) == Some(|Centred| - 3)
  {
    var p := Centred[2..];
    assert p[|p| - 1] == '>';
    assert forall i :: 0 <= i < |p| - 1 ==> p[i] != '>';
  }

  /** Text after the first `>` does not move it. */
  lemma {:induction false} FirstCloseAppend(p: string, rest: string)
    requires FirstClose(p).Some?
    ensures FirstClose(p + rest) == FirstClose(p)
    decreases |p|
  {
    assert (p + rest)[0] == p[0];
    if p[0] != '>' {
      assert (p + rest)[1..] == p[1..] + rest;
      FirstCloseAppend(p[1..], rest);
    }
  }

  /** Without a `>` there is nothing to match. */
  lemma {:induction false} NoCloseUnchanged(s: string)
    requires forall i :: 0 <= i < |s| ==> s[i] != '>'
    ensures CentreParagraphs(s) == s
    decreases |s|
  {
    if s != [] {
      NoCloseUnchanged(s[1..]);
      assert s == [s[0]] + s[1..];
    }
  }

  /** A character that the scan leaves alone is not the start of a match in the output either. */
  lemma UnmatchedStaysUnmatched(s: string)
    requires s != [] && TagAt(s).None?
    ensures TagAt([s[0]] + CentreParagraphs(s[1..])).None?
  {
    var out := [s[0]] + CentreParagraphs(s[1..]);
    if StartsWith(out, "<p") {
      assert out[0] == '<' && out[1] == 'p';
      var t := s[1..];
      assert t != [];
      if TagAt(t).None? {
        assert out[1] == t[0] == 'p';
        assert s[..2] == [s[0], s[1]] == "<p";
        assert FirstClose(s[2..]).None?;
        assert s[2..] == t[1..];
        NoCloseUnchanged(t[1..]);
        assert out[2..] == t[1..];
      }
    }
  }

  /**
   * Cutting the output into pieces gives the input's pieces with every tag
   * replaced by the centred one: the characters between tags are kept, in
   * place, and no tag is added or lost.
   */
  lemma {:induction false} CentrePieces(s: string)
    ensures Pieces(CentreParagraphs(s)) == CentreTags(Pieces(s))
    decreases |s|
  {
    if s != [] {
      match TagAt(s)
      case Some(n) =>
        CentrePieces(s[n..]);
        var rest := CentreParagraphs(s[n..]);
        CentredIsTag(rest);
        assert Pieces(Centred + rest) == [Tag(Centred)] + Pieces(rest);
      case None =>
        CentrePieces(s[1..]);
        var out := [s[0]] + CentreParagraphs(s[1..]);
        UnmatchedStaysUnmatched(s);
        assert out[1..] == CentreParagraphs(s[1..]);
        assert Pieces(out) == [Text(s[0])] + Pieces(CentreParagraphs(s[1..]));
    }
  }

  /** The replacement is the rendering of the centred pieces. */
  lemma {:induction false} CentreRendered(s: string)
    ensures CentreParagraphs(s) == Render(CentreTags(Pieces(s)))
    decreases |s|
  {
    if s != [] {
      match TagAt(s)
      case Some(n) =>
        CentreRendered(s[n..]);
        assert CentreTags(Pieces(s)) == [Tag(Centred)] + CentreTags(Pieces(s[n..]));
      case None =>
        CentreRendered(s[1..]);
        assert CentreTags(Pieces(s)) == [Text(s[0])] + CentreTags(Pieces(s[1..]));
    }
  }

  /** Centring twice is centring once. */
  lemma CentreIdempotent(s: string)
    ensures CentreParagraphs(CentreParagraphs(s)) == CentreParagraphs(s)
  {
    CentrePieces(s);
    CentreRendered(CentreParagraphs(s));
    CentreRendered(s);
    var ps := Pieces(s);
    assert CentreTags(CentreTags(ps)) == CentreTags(ps);
  }
}
