/**
 * Upgrade step 6 of H5P.InteractiveBook 1.x. The legacy cover fields
 * `coverImage` and `coverAltText` are folded into a `coverMedium` that
 * references an H5P.Image 1.1 sub-content, and the cover description is
 * centred: text that does not start with `<p` is wrapped whole in a centred
 * paragraph, and in text that does, every opening tag that starts with `<p`
 * is overwritten by a centred one.
 */
module CoverUpgrade {
  import opened Wrappers
  import opened Json
  import opened Book
  import opened Text
  import opened ParseInt
  import opened SubContentId
  import opened Paragraphs

  /** The image library that a cover medium references. */
  const Library: string := "H5P.Image 1.1"

  /** The metadata of a new image before any copyright is lifted into it. */
  const DefaultMetadata: map<string, Value> :=
    map["contentType" := Str("Image"), "license" := Str("U"), "title" := Str("Untitled Image")]

  /** The parameters of a new image before its alternative text and file are set. */
  const DefaultParams: map<string, Value> :=
    map["contentName" := Str("Image"), "decorative" := Bool(false)]

  /** The one-author list that an author name becomes. */
  function Authors(name: Value): Value
  {
    Arr([Obj(map["name" := name, "role" := Str("Author")])])
  }

  /** Copyright field `k`, copied to metadata key `into` when it is truthy. */
  function Lift(copyright: Value, k: string, into: string): map<string, Value>
  {
    if TruthyOpt(Get(copyright, k)) then map[into := Get(copyright, k).value] else map[]
  }

  /** The year of a copyright as `yearFrom`, when it is truthy and `parseInt` reads a number from it. */
  function YearFrom(copyright: Value): map<string, Value>
  {
    var year := Get(copyright, "year");
    if TruthyOpt(year) && ParseIntValue(year.value).Some? then
      map["yearFrom" := Num(ParseIntValue(year.value).value)]
    else map[]
  }

  /**
   * The metadata writes of a copyright, in the order of the source: the
   * author as a one-entry `authors` list, the licence, the source, the title,
   * the version as `licenseVersion` and the year as `yearFrom`.
   */
  function Writes(copyright: Value): (ws: seq<map<string, Value>>)
    ensures |ws| == 6
  {
    [ if TruthyOpt(Get(copyright, "author")) then map["authors" := Authors(Get(copyright, "author").value)] else map[],
      Lift(copyright, "license", "license"),
      Lift(copyright, "source", "source"),
      Lift(copyright, "title", "title"),
      Lift(copyright, "version", "licenseVersion"),
      YearFrom(copyright) ]
  }

  /** `m` after the writes `ws`, in order; a later write of a key wins. */
  function Unions(m: map<string, Value>, ws: seq<map<string, Value>>): (r: map<string, Value>)
    ensures m.Keys <= r.Keys
    decreases |ws|
  {
    if ws == [] then m else Unions(m + ws[0], ws[1..])
  }

  /** The copyright of a truthy file, if it has a truthy one. */
  function CopyrightOf(file: Option<Value>): Option<Value>
  {
    if TruthyOpt(file) && TruthyOpt(Get(file.value, "copyright")) then Get(file.value, "copyright") else None
  }

  /** The metadata of the image made from `file`. */
  function Metadata(file: Option<Value>): map<string, Value>
  {
    match CopyrightOf(file)
    case None => DefaultMetadata
    case Some(copyright) => Unions(DefaultMetadata, Writes(copyright))
  }

  /** The file as the image keeps it: without its copyright when that was lifted. */
  function Stripped(file: Value): Value
  {
    if TruthyOpt(Get(file, "copyright")) then Obj(file.fields - {"copyright"}) else file
  }

  /** The parameters of the image made from `file` and `alt`. */
  function Params(file: Option<Value>, alt: Option<Value>): map<string, Value>
  {
    DefaultParams
    + (if TruthyOpt(alt) then map["alt" := alt.value] else map[])
    + (if TruthyOpt(file) then map["file" := Stripped(file.value)] else map[])
  }

  /** The image reference that `convertToImageParams(file, alt)` returns, given its sub-content id. */
  function ImageParams(file: Option<Value>, alt: Option<Value>, id: string): Value
  {
    Obj(map[
      "library" := Str(Library),
      "metadata" := Obj(Metadata(file)),
      "params" := Obj(Params(file, alt)),
      "subContentId" := Str(id)])
  }

  /** `m[k := v]` is the union with the one-entry map. */
  lemma UpdateIsUnion(m: map<string, Value>, k: string, v: Value)
    ensures m[k := v] == m + map[k := v]
  {
  }

  /** The conditional metadata writes of one copyright, in the order of the source. */
  method LiftCopyright(copyright: Value, metadata: map<string, Value>) returns (lifted: map<string, Value>)
    ensures lifted == Unions(metadata, Writes(copyright))
  {
    lifted := metadata;
    if TruthyOpt(Get(copyright, "author")) {
      lifted := lifted["authors" := Authors(Get(copyright, "author").value)];
    }
    AuthorWritten(metadata, lifted, copyright);
    ghost var l1 := lifted;
    if TruthyOpt(Get(copyright, "license")) {
      lifted := lifted["license" := Get(copyright, "license").value];
    }
    LiftWritten(l1, lifted, copyright, "license", "license");
    ghost var l2 := lifted;
    if TruthyOpt(Get(copyright, "source")) {
      lifted := lifted["source" := Get(copyright, "source").value];
    }
    LiftWritten(l2, lifted, copyright, "source", "source");
    ghost var l3 := lifted;
    if TruthyOpt(Get(copyright, "title")) {
      lifted := lifted["title" := Get(copyright, "title").value];
    }
    LiftWritten(l3, lifted, copyright, "title", "title");
    ghost var l4 := lifted;
    if TruthyOpt(Get(copyright, "version")) {
      lifted := lifted["licenseVersion" := Get(copyright, "version").value];
    }
    LiftWritten(l4, lifted, copyright, "version", "licenseVersion");
    ghost var l5 := lifted;
    var year := Get(copyright, "year");
    if TruthyOpt(year) && ParseIntValue(year.value).Some? {
      lifted := lifted["yearFrom" := Num(ParseIntValue(year.value).value)];
    }
    YearWritten(l5, lifted, copyright);
    UnionsOfSix(metadata, Writes(copyright));
  }

  /** The author write of `LiftCopyright` is the union with the first write. */
  lemma AuthorWritten(before: map<string, Value>, after: map<string, Value>, copyright: Value)
    requires var author := Get(copyright, "author");
      after == if TruthyOpt(author) then before["authors" := Authors(author.value)] else before
    ensures after == before + Writes(copyright)[0]
  {
  }

  /** A conditional copy of field `k` is the union with its write. */
  lemma LiftWritten(before: map<string, Value>, after: map<string, Value>, copyright: Value, k: string, into: string)
    requires after == if TruthyOpt(Get(copyright, k)) then before[into := Get(copyright, k).value] else before
    ensures after == before + Lift(copyright, k, into)
  {
  }

  /** The year write of `LiftCopyright` is the union with the last write. */
  lemma YearWritten(before: map<string, Value>, after: map<string, Value>, copyright: Value)
    requires var year := Get(copyright, "year");
      after == if TruthyOpt(year) && ParseIntValue(year.value).Some? then
        before["yearFrom" := Num(ParseIntValue(year.value).value)] else before
    ensures after == before + Writes(copyright)[5]
  {
  }

  /** Six writes, one after the other. */
  lemma UnionsOfSix(m: map<string, Value>, ws: seq<map<string, Value>>)
    requires |ws| == 6
    ensures Unions(m, ws) == m + ws[0] + ws[1] + ws[2] + ws[3] + ws[4] + ws[5]
  {
    assert Unions(m, ws[..0]) == m;
    UnionsSnoc(m, ws, 0);
    UnionsSnoc(m, ws, 1);
    UnionsSnoc(m, ws, 2);
    UnionsSnoc(m, ws, 3);
    UnionsSnoc(m, ws, 4);
    UnionsSnoc(m, ws, 5);
    assert ws[..6] == ws;
  }

  /** One more write after a prefix of the writes. */
  lemma {:induction false} UnionsSnoc(m: map<string, Value>, ws: seq<map<string, Value>>, i: nat)
    requires i < |ws|
    ensures Unions(m, ws[..i + 1]) == Unions(m, ws[..i]) + ws[i]
    decreases i
  {
    if i > 0 {
      assert ws[..i + 1][1..] == ws[1..][..i];
      assert ws[..i][1..] == ws[1..][..i - 1];
      UnionsSnoc(m + ws[0], ws[1..], i - 1);
    }
  }

  /**
   * `convertToImageParams`: the image reference is built from its defaults
   * by conditional writes, and the file's copyright is moved into the
   * metadata.
   */
  method ConvertToImageParams(file: Option<Value>, alt: Option<Value>, rs: seq<Nibble>)
    returns (imageParams: Value)
    requires |rs| == RandomCount
    ensures imageParams == ImageParams(file, alt, Generate(rs))
  {
    var id := Generate(rs);
    var metadata := DefaultMetadata;
    var params := DefaultParams;
    if TruthyOpt(alt) {
      UpdateIsUnion(params, "alt", alt.value);
      params := params["alt" := alt.value];
    }
    assert params == DefaultParams + (if TruthyOpt(alt) then map["alt" := alt.value] else map[]);
    ghost var withAlt := params;
    if TruthyOpt(file) {
      var f := file.value;
      if TruthyOpt(Get(f, "copyright")) {
        var copyright := Get(f, "copyright").value;
        metadata := LiftCopyright(copyright, metadata);
        f := Obj(f.fields - {"copyright"});
      }
      assert f == Stripped(file.value);
      UpdateIsUnion(params, "file", f);
      params := params["file" := f];
    }
    assert params == withAlt + (if TruthyOpt(file) then map["file" := Stripped(file.value)] else map[]);
    assert metadata == Metadata(file);
    imageParams := Obj(map["library" := Str(Library), "metadata" := Obj(metadata),
                           "params" := Obj(params), "subContentId" := Str(id)]);
  }

  /** The book cover after the image fields are folded into `coverMedium`. */
  function MigratedCover(cover: map<string, Value>, rs: seq<Nibble>): map<string, Value>
    requires |rs| == RandomCount
  {
    var image := Get(Obj(cover), "coverImage");
    var alt := Get(Obj(cover), "coverAltText");
    var kept := cover - {"coverImage", "coverAltText"};
    if TruthyOpt(alt) || TruthyOpt(image) then kept["coverMedium" := ImageParams(image, alt, Generate(rs))]
    else kept
  }

  /** The parameters after the first half of the step: the image fields are migrated. */
  function MigratedParameters(parameters: Value, rs: seq<Nibble>): Value
    requires |rs| == RandomCount
  {
    if HasCover(parameters) then
      Obj(parameters.fields["bookCover" := Obj(MigratedCover(parameters.fields["bookCover"].fields, rs))])
    else parameters
  }

  /** A description centred: wrapped when it is not paragraph markup, its paragraph tags centred when it is. */
  function CentreDescription(d: string): string
  {
    if StartsWith(d, "<p") then CentreParagraphs(d) else Centred + d + "</p>"
  }

  /**
   * The second half of the step: a truthy description is centred, and one
   * that is not a string has no `substr` to call, which throws.
   */
  function CentredParameters(parameters: Value, extras: Value): Outcome
  {
    var d := Description(parameters);
    if !TruthyOpt(d) then Finished(Null, parameters, extras)
    else if !d.value.Str? then Threw(parameters)
    else Finished(Null, WithDescription(parameters, CentreDescription(d.value.s)), extras)
  }

  /** Step 6 as a whole. */
  function Upgrade(parameters: Value, extras: Value, rs: seq<Nibble>): Outcome
    requires |rs| == RandomCount
  {
    CentredParameters(MigratedParameters(parameters, rs), extras)
  }

  /** Step 6, changing the book cover field by field as the source does. */
  method Step(parameters: Value, extras: Value, rs: seq<Nibble>) returns (outcome: Outcome)
    requires |rs| == RandomCount
    ensures outcome == Upgrade(parameters, extras, rs)
  {
    var p := MigrateImage(parameters, rs);
    outcome := CentreStep(p, extras);
  }

  /** The first half of the step: the image fields of a book cover object become `coverMedium`. */
  method MigrateImage(parameters: Value, rs: seq<Nibble>) returns (p: Value)
    requires |rs| == RandomCount
    ensures p == MigratedParameters(parameters, rs)
  {
    p := parameters;
    if p.Obj? && "bookCover" in p.fields && p.fields["bookCover"].Obj? {
      var bookCover := p.fields["bookCover"].fields;
      var alt := Get(Obj(bookCover), "coverAltText");
      var image := Get(Obj(bookCover), "coverImage");
      if TruthyOpt(alt) || TruthyOpt(image) {
        var medium := ConvertToImageParams(image, alt, rs);
        bookCover := bookCover["coverMedium" := medium];
      }
      bookCover := bookCover - {"coverImage"};
      bookCover := bookCover - {"coverAltText"};
      assert bookCover == MigratedCover(parameters.fields["bookCover"].fields, rs);
      p := Obj(p.fields["bookCover" := Obj(bookCover)]);
    }
  }

  /** The second half of the step: a truthy description is centred, or the step throws. */
  method CentreStep(p: Value, extras: Value) returns (outcome: Outcome)
    ensures outcome == CentredParameters(p, extras)
  {
    var d := GetOpt(Get(p, "bookCover"), "coverDescription");
    if TruthyOpt(d) {
      if !d.value.Str? {
        return Threw(p);
      }
      var text := d.value.s;
      if text[..if |text| < 2 then |text| else 2] != "<p" {
        text := Centred + text + "</p>";
      } else {
        text := CentreParagraphs(text);
      }
      var cover := p.fields["bookCover"];
      outcome := Finished(Null, Obj(p.fields["bookCover" := Obj(cover.fields["coverDescription" := Str(text)])]), extras);
      assert outcome.parameters == WithDescription(p, CentreDescription(d.value.s));
    } else {
      outcome := Finished(Null, p, extras);
    }
  }

  /** A new image reference is an H5P.Image 1.1 with the generated id, and nothing else at the top level. */
  lemma ImageParamsTop(file: Option<Value>, alt: Option<Value>, id: string)
    ensures var r := ImageParams(file, alt, id).fields;
      r.Keys == {"library", "metadata", "params", "subContentId"} &&
      r["library"] == Str("H5P.Image 1.1") && r["subContentId"] == Str(id)
  {
  }

  /**
   * The image's parameters: the defaults, the alternative text only when it
   * is truthy and the file only when it is truthy.
   */
  lemma ParamsDefaults(file: Option<Value>, alt: Option<Value>)
    ensures var params := Params(file, alt);
      params["contentName"] == Str("Image") && params["decorative"] == Bool(false) &&
      ("alt" in params <==> TruthyOpt(alt)) && (TruthyOpt(alt) ==> params["alt"] == alt.value) &&
      ("file" in params <==> TruthyOpt(file)) &&
      params.Keys <= {"contentName", "decorative", "alt", "file"}
  {
    var withAlt := DefaultParams + (if TruthyOpt(alt) then map["alt" := alt.value] else map[]);
    assert withAlt.Keys <= {"contentName", "decorative", "alt"};
    assert "file" !in withAlt;
  }

  /** Writes that do not have key `k` leave it as it was. */
  lemma {:induction false} UnionsKeep(m: map<string, Value>, ws: seq<map<string, Value>>, k: string)
    requires forall j :: 0 <= j < |ws| ==> k !in ws[j]
    ensures (k in Unions(m, ws) <==> k in m) && (k in m ==> Unions(m, ws)[k] == m[k])
    decreases |ws|
  {
    if ws != [] {
      UnionsKeep(m + ws[0], ws[1..], k);
    }
  }

  /** The writes `a` then the writes `b`. */
  lemma {:induction false} UnionsAppend(m: map<string, Value>, a: seq<map<string, Value>>, b: seq<map<string, Value>>)
    ensures Unions(m, a + b) == Unions(Unions(m, a), b)
    decreases |a|
  {
    if a == [] {
      assert a + b == b;
    } else {
      assert (a + b)[0] == a[0] && (a + b)[1..] == a[1..] + b;
      UnionsAppend(m + a[0], a[1..], b);
    }
  }

  /**
   * Key `k` after the writes, when no write after the `i`-th has it: the
   * `i`-th write's value if it has one, and otherwise what it was before.
   */
  lemma WrittenAt(m: map<string, Value>, ws: seq<map<string, Value>>, i: nat, k: string)
    requires i < |ws| && forall j :: i < j < |ws| ==> k !in ws[j]
    ensures k in ws[i] ==> k in Unions(m, ws) && Unions(m, ws)[k] == ws[i][k]
    ensures k !in ws[i] ==>
      (k in Unions(m, ws) <==> k in Unions(m, ws[..i])) &&
      (k in Unions(m, ws[..i]) ==> Unions(m, ws)[k] == Unions(m, ws[..i])[k])
  {
    assert ws == ws[..i + 1] + ws[i + 1..];
    UnionsAppend(m, ws[..i + 1], ws[i + 1..]);
    UnionsSnoc(m, ws, i);
    UnionsKeep(Unions(m, ws[..i + 1]), ws[i + 1..], k);
  }

  /** Without a copyright the image has the default metadata, licence `U` included. */
  lemma MetadataDefaults(file: Option<Value>)
    ensures CopyrightOf(file).None? ==>
      Metadata(file) == map["contentType" := Str("Image"), "license" := Str("U"), "title" := Str("Untitled Image")]
    ensures Metadata(file)["contentType"] == Str("Image")
  {
    if CopyrightOf(file).Some? {
      UnionsKeep(DefaultMetadata, Writes(CopyrightOf(file).value), "contentType");
    }
  }

  /** The author becomes a one-entry `authors` list, only when it is truthy. */
  lemma AuthorLifted(file: Option<Value>)
    requires CopyrightOf(file).Some?
    ensures var author := Get(CopyrightOf(file).value, "author");
      var metadata := Metadata(file);
      ("authors" in metadata <==> TruthyOpt(author)) &&
      (TruthyOpt(author) ==> metadata["authors"] == Arr([Obj(map["name" := author.value, "role" := Str("Author")])]))
  {
    WrittenAt(DefaultMetadata, Writes(CopyrightOf(file).value), 0, "authors");
  }

  /** The licence overrides the default `U` only when it is truthy. */
  lemma LicenseLifted(file: Option<Value>)
    requires CopyrightOf(file).Some?
    ensures var c := CopyrightOf(file).value;
      Metadata(file)["license"] == (if TruthyOpt(Get(c, "license")) then Get(c, "license").value else Str("U"))
  {
    var ws := Writes(CopyrightOf(file).value);
    WrittenAt(DefaultMetadata, ws, 1, "license");
    assert Unions(DefaultMetadata, ws[..1]) == DefaultMetadata + ws[0];
  }

  /** The source is added only when it is truthy. */
  lemma SourceLifted(file: Option<Value>)
    requires CopyrightOf(file).Some?
    ensures var c := CopyrightOf(file).value;
      ("source" in Metadata(file) <==> TruthyOpt(Get(c, "source"))) &&
      (TruthyOpt(Get(c, "source")) ==> Metadata(file)["source"] == Get(c, "source").value)
  {
    var ws := Writes(CopyrightOf(file).value);
    WrittenAt(DefaultMetadata, ws, 2, "source");
    UnionsKeep(DefaultMetadata, ws[..2], "source");
  }

  /** The title overrides the default `Untitled Image` only when it is truthy. */
  lemma TitleLifted(file: Option<Value>)
    requires CopyrightOf(file).Some?
    ensures var c := CopyrightOf(file).value;
      Metadata(file)["title"] == (if TruthyOpt(Get(c, "title")) then Get(c, "title").value else Str("Untitled Image"))
  {
    var ws := Writes(CopyrightOf(file).value);
    WrittenAt(DefaultMetadata, ws, 3, "title");
    UnionsKeep(DefaultMetadata, ws[..3], "title");
  }

  /** The version is added as `licenseVersion` only when it is truthy. */
  lemma VersionLifted(file: Option<Value>)
    requires CopyrightOf(file).Some?
    ensures var c := CopyrightOf(file).value;
      ("licenseVersion" in Metadata(file) <==> TruthyOpt(Get(c, "version"))) &&
      (TruthyOpt(Get(c, "version")) ==> Metadata(file)["licenseVersion"] == Get(c, "version").value)
  {
    var ws := Writes(CopyrightOf(file).value);
    WrittenAt(DefaultMetadata, ws, 4, "licenseVersion");
    UnionsKeep(DefaultMetadata, ws[..4], "licenseVersion");
  }

  /** The year is lifted as `yearFrom` only when it is truthy and `parseInt` reads a number from it. */
  lemma YearLifted(file: Option<Value>)
    requires CopyrightOf(file).Some?
    ensures var year := Get(CopyrightOf(file).value, "year");
      var metadata := Metadata(file);
      ("yearFrom" in metadata <==> TruthyOpt(year) && ParseIntValue(year.value).Some?) &&
      ("yearFrom" in metadata ==> metadata["yearFrom"] == Num(ParseIntValue(year.value).value))
  {
    var ws := Writes(CopyrightOf(file).value);
    WrittenAt(DefaultMetadata, ws, 5, "yearFrom");
    UnionsKeep(DefaultMetadata, ws[..5], "yearFrom");
  }

  /** A year written in decimal digits is lifted as that number. */
  lemma DecimalYearLifted(file: Option<Value>, year: nat)
    requires CopyrightOf(file).Some? && Get(CopyrightOf(file).value, "year") == Some(Str(NatToString(year)))
    ensures "yearFrom" in Metadata(file) && Metadata(file)["yearFrom"] == Num(year)
  {
    ParseIntDecimal(year, []);
    assert IntToString(year) + [] == NatToString(year);
    YearLifted(file);
  }

  /**
   * A truthy file is embedded; it loses its copyright, and only that, when
   * the copyright is truthy, and is embedded as it is otherwise.
   */
  lemma FileStripped(file: Option<Value>, alt: Option<Value>)
    ensures "file" in Params(file, alt) <==> TruthyOpt(file)
    ensures TruthyOpt(file) ==>
      Params(file, alt)["file"] == (if CopyrightOf(file).Some? then Obj(file.value.fields - {"copyright"}) else file.value)
  {
  }

  /** The migration does not touch the description. */
  lemma MigrationKeepsDescription(parameters: Value, rs: seq<Nibble>)
    requires |rs| == RandomCount
    ensures Description(MigratedParameters(parameters, rs)) == Description(parameters)
  {
  }

  /** The book cover fields after the step, whether it finished or threw. */
  function CoverAfter(parameters: Value, extras: Value, rs: seq<Nibble>): (cover: map<string, Value>)
    requires |rs| == RandomCount && HasCover(parameters)
  {
    var out := Upgrade(parameters, extras, rs).parameters;
    assert HasCover(out);
    out.fields["bookCover"].fields
  }

  /**
   * `coverMedium` is written exactly when the alternative text or the image
   * is truthy, as the image made from them with a version 4 shaped id;
   * `coverImage` and `coverAltText` are gone either way.
   */
  lemma CoverMedium(parameters: Value, extras: Value, rs: seq<Nibble>)
    requires |rs| == RandomCount && HasCover(parameters)
    ensures var cover := parameters.fields["bookCover"].fields;
      var after := CoverAfter(parameters, extras, rs);
      var image := Get(Obj(cover), "coverImage");
      var alt := Get(Obj(cover), "coverAltText");
      "coverImage" !in after && "coverAltText" !in after &&
      (TruthyOpt(alt) || TruthyOpt(image) ==>
        after["coverMedium"] == ImageParams(image, alt, Generate(rs)) && IsVersion4Shape(Generate(rs))) &&
      (!(TruthyOpt(alt) || TruthyOpt(image)) ==> Get(Obj(after), "coverMedium") == Get(Obj(cover), "coverMedium"))
  {
    var cover := parameters.fields["bookCover"].fields;
    var after := CoverAfter(parameters, extras, rs);
    AfterIsMigrated(parameters, extras, rs);
    MigratedMedium(cover, rs);
    assert Get(Obj(after), "coverImage") == None && Get(Obj(after), "coverAltText") == None;
    assert Get(Obj(after), "coverMedium") == Get(Obj(MigratedCover(cover, rs)), "coverMedium");
    GeneratedShape(rs);
  }

  /** The image fields of the migrated cover. */
  lemma MigratedMedium(cover: map<string, Value>, rs: seq<Nibble>)
    requires |rs| == RandomCount
    ensures var m := MigratedCover(cover, rs);
      var image := Get(Obj(cover), "coverImage");
      var alt := Get(Obj(cover), "coverAltText");
      Get(Obj(m), "coverImage") == None && Get(Obj(m), "coverAltText") == None &&
      (TruthyOpt(alt) || TruthyOpt(image) ==> Get(Obj(m), "coverMedium") == Some(ImageParams(image, alt, Generate(rs)))) &&
      (!(TruthyOpt(alt) || TruthyOpt(image)) ==> Get(Obj(m), "coverMedium") == Get(Obj(cover), "coverMedium"))
  {
  }

  /** Apart from the description, the cover after the step is the migrated cover. */
  lemma AfterIsMigrated(parameters: Value, extras: Value, rs: seq<Nibble>)
    requires |rs| == RandomCount && HasCover(parameters)
    ensures var after := CoverAfter(parameters, extras, rs);
      var migrated := MigratedCover(parameters.fields["bookCover"].fields, rs);
      forall k :: k != "coverDescription" ==> Get(Obj(after), k) == Get(Obj(migrated), k)
  {
    var out := UpgradedParameters(parameters, extras, rs);
    var migrated := MigratedCover(parameters.fields["bookCover"].fields, rs);
    assert MigratedParameters(parameters, rs).fields["bookCover"].fields == migrated;
    var after := CoverAfter(parameters, extras, rs);
    assert after == out.fields["bookCover"].fields;
  }

  /**
   * Nothing else changes: the other top-level parameters and the other book
   * cover fields keep their values, and parameters without a book cover
   * object are passed on as they are.
   */
  lemma OthersKept(parameters: Value, extras: Value, rs: seq<Nibble>)
    requires |rs| == RandomCount
    ensures !HasCover(parameters) ==> Upgrade(parameters, extras, rs) == Finished(Null, parameters, extras)
    ensures HasCover(parameters) ==>
      var out := Upgrade(parameters, extras, rs).parameters;
      out.Obj? && out.fields.Keys == parameters.fields.Keys &&
      forall k :: k in parameters.fields && k != "bookCover" ==> out.fields[k] == parameters.fields[k]
    ensures HasCover(parameters) ==>
      var cover := parameters.fields["bookCover"].fields;
      var after := CoverAfter(parameters, extras, rs);
      forall k :: k !in {"coverImage", "coverAltText", "coverMedium", "coverDescription"} ==> Get(Obj(after), k) == Get(Obj(cover), k)
  {
    if HasCover(parameters) {
      var out := UpgradedParameters(parameters, extras, rs);
      CoverFieldsKept(parameters, extras, rs);
    } else {
      assert MigratedParameters(parameters, rs) == parameters;
      assert Description(parameters) == None;
    }
  }

  /** The book cover fields other than the four the step writes keep their values. */
  lemma CoverFieldsKept(parameters: Value, extras: Value, rs: seq<Nibble>)
    requires |rs| == RandomCount && HasCover(parameters)
    ensures var cover := parameters.fields["bookCover"].fields;
      var after := CoverAfter(parameters, extras, rs);
      forall k :: k !in {"coverImage", "coverAltText", "coverMedium", "coverDescription"} ==> Get(Obj(after), k) == Get(Obj(cover), k)
  {
    var cover := parameters.fields["bookCover"].fields;
    var migrated := MigratedCover(cover, rs);
    var after := CoverAfter(parameters, extras, rs);
    AfterIsMigrated(parameters, extras, rs);
    forall k | k !in {"coverImage", "coverAltText", "coverMedium", "coverDescription"}
      ensures Get(Obj(after), k) == Get(Obj(cover), k)
    {
      assert Get(Obj(after), k) == Get(Obj(migrated), k);
    }
  }

  /**
   * With a book cover, the step's parameters are the migrated ones with at
   * most the description changed.
   */
  lemma UpgradedParameters(parameters: Value, extras: Value, rs: seq<Nibble>) returns (out: Value)
    requires |rs| == RandomCount && HasCover(parameters)
    ensures out == Upgrade(parameters, extras, rs).parameters
    ensures var m := MigratedParameters(parameters, rs);
      HasCover(out) && out.fields.Keys == m.fields.Keys &&
      (forall k :: k in m.fields && k != "bookCover" ==> out.fields[k] == m.fields[k]) &&
      (forall k :: k in m.fields["bookCover"].fields && k != "coverDescription" ==>
        k in out.fields["bookCover"].fields && out.fields["bookCover"].fields[k] == m.fields["bookCover"].fields[k]) &&
      (forall k :: k in out.fields["bookCover"].fields && k != "coverDescription" ==> k in m.fields["bookCover"].fields)
  {
    var m := MigratedParameters(parameters, rs);
    out := Upgrade(parameters, extras, rs).parameters;
    var d := Description(m);
    if TruthyOpt(d) && d.value.Str? {
      WithDescriptionKeeps(m, CentreDescription(d.value.s));
    }
  }

  /**
   * The step reports once, with a null error and the same extras, unless
   * the description is truthy but not a string: it has no `substr`, so the
   * step throws (after the image fields have been migrated).
   */
  lemma Reports(parameters: Value, extras: Value, rs: seq<Nibble>)
    requires |rs| == RandomCount
    ensures var d := Description(parameters);
      Upgrade(parameters, extras, rs).Threw? <==> TruthyOpt(d) && !d.value.Str?
    ensures Upgrade(parameters, extras, rs).Finished? ==>
      Upgrade(parameters, extras, rs).error == Null && Upgrade(parameters, extras, rs).extras == extras
    ensures Upgrade(parameters, extras, rs).Threw? ==>
      Upgrade(parameters, extras, rs).parameters == MigratedParameters(parameters, rs)
  {
    MigrationKeepsDescription(parameters, rs);
  }

  /**
   * The description after the step: an absent or empty one is untouched,
   * text that does not start with `<p` is wrapped in a centred paragraph,
   * and in markup every `<p…>` tag becomes the centred one while the text
   * between tags is kept.
   */
  lemma DescriptionCentred(parameters: Value, extras: Value, rs: seq<Nibble>)
    requires |rs| == RandomCount
    requires Upgrade(parameters, extras, rs).Finished?
    ensures var d := Description(parameters);
      var after := Description(Upgrade(parameters, extras, rs).parameters);
      (!TruthyOpt(d) ==> after == d) &&
      (TruthyOpt(d) && !StartsWith(d.value.s, "<p") ==> after == Some(Str(Centred + d.value.s + "</p>"))) &&
      (TruthyOpt(d) && StartsWith(d.value.s, "<p") ==>
        after.Some? && after.value.Str? && Pieces(after.value.s) == CentreTags(Pieces(d.value.s)))
  {
    MigrationKeepsDescription(parameters, rs);
    Reports(parameters, extras, rs);
    var d := Description(parameters);
    if TruthyOpt(d) && StartsWith(d.value.s, "<p") {
      CentrePieces(d.value.s);
    }
  }

  /** Centring paragraph markup a second time changes nothing. */
  lemma CentreDescriptionStable(d: string)
    requires StartsWith(d, "<p")
    ensures StartsWith(CentreDescription(d), "<p")
    ensures CentreDescription(CentreDescription(d)) == CentreDescription(d)
  {
    CentreIdempotent(d);
    CentreKeepsOpening(d);
  }

  /** Centring markup that starts with `<p` gives markup that starts with `<p`. */
  lemma CentreKeepsOpening(d: string)
    requires StartsWith(d, "<p")
    ensures StartsWith(CentreParagraphs(d), "<p")
  {
    match TagAt(d)
    case Some(n) =>
      CentredIsTag(CentreParagraphs(d[n..]));
    case None =>
      var t := d[1..];
      assert TagAt(t).None? && t[0] == 'p';
      assert CentreParagraphs(d) == [d[0]] + ([t[0]] + CentreParagraphs(t[1..]));
  }
}
