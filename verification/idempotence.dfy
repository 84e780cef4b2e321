/**
  Slugs as fixed points of `Slugifier::slugify_ascii` (src/lib.rs), with
  truncation. A slug cut at a separator is the rendering of its first words,
  and a hard cut with a one-character separator keeps part of the first
  word only, so slugifying the result again changes nothing.

  With a longer separator the hard cut of the source can stop inside a
  separator occurrence that straddles the limit and leave part of it behind;
  `SlugifyAsciiIntended` cuts before every occurrence that starts inside the
  limit, and its results are fixed points for every separator.
 */
module Idempotence {
  import opened Ascii
  import opened Config
  import opened Slug
  import opened SlugLaws
  import opened Truncation
  import opened Rslug

  // ---------------------------------------------------------------------------
  // Where a cut can fall
  // ---------------------------------------------------------------------------

  /** A join begins with its first part, and with a second part the separator follows the first. */
  lemma {:induction false} JoinStartsWithFirst<T>(parts: seq<seq<T>>, sep: seq<T>)
    requires |parts| > 0
    ensures parts[0] <= Join(parts, sep)
    ensures |parts| >= 2 ==> OccursAt(Join(parts, sep), sep, |parts[0]|)
    decreases |parts|
  {
    var n := |parts|;
    if n >= 2 {
      var init := parts[..n - 1];
      var front := Join(init, sep);
      var whole := Join(parts, sep);
      assert whole == front + sep + parts[n - 1];
      assert init[0] == parts[0];
      if n > 2 {
        JoinStartsWithFirst(init, sep);
        OccursInPrefix(whole, sep, |front|, |parts[0]|);
        assert whole[..|front|] == front;
      } else {
        assert whole[|parts[0]|..|parts[0]| + |sep|] == sep;
      }
    }
  }

  /**
    A cut before which the separator never starts stays inside the first
    part, and keeps a prefix of it.
   */
  lemma {:induction false} CutInFirstPart(parts: seq<string>, sep: string, m: nat)
    requires |parts| > 0 && |sep| > 0
    requires m <= |Join(parts, sep)|
    requires forall i :: 0 <= i < m ==> !OccursAt(Join(parts, sep), sep, i)
    ensures m <= |parts[0]|
    ensures Join(parts, sep)[..m] == parts[0][..m]
  {
    JoinStartsWithFirst(parts, sep);
  }

  /** The slug cut before one of the separator's occurrences is the slug of its first `k` words. */
  lemma {:induction false} CutAtOccurrenceIsRendering(cfg: Slugifier, text: seq<byte>, c: nat) returns (k: nat)
    requires |cfg.separator| > 0 && NoAlphanumericChar(cfg.separator)
    requires OccursAt(Scan(cfg, text), cfg.separator, c)
    ensures 1 <= k < |Words(text)|
    ensures Scan(cfg, text)[..c] == Render(cfg, Words(text)[..k])
  {
    var ws := Words(text);
    var parts := EmitWords(cfg.toLowercase, ws);
    EmitWordsAreTextWords(cfg.toLowercase, ws);
    k := SeparatorOnlyBetweenWords(parts, cfg.separator, c);
    assert EmitWords(cfg.toLowercase, ws[..k]) == parts[..k];
  }

  /**
    The slug cut where no separator starts before the cut is the slug of one
    word: a non-empty prefix of the first word.
   */
  lemma {:induction false} HardCutIsRendering(cfg: Slugifier, text: seq<byte>, m: nat) returns (w: seq<byte>)
    requires |cfg.separator| > 0
    requires 0 < m <= |Scan(cfg, text)|
    requires forall i :: 0 <= i < m ==> !OccursAt(Scan(cfg, text), cfg.separator, i)
    ensures IsWord(w)
    ensures |Words(text)| > 0 && |w| == m && w <= Words(text)[0]
    ensures Scan(cfg, text)[..m] == Render(cfg, [w])
  {
    var ws := Words(text);
    var parts := EmitWords(cfg.toLowercase, ws);
    assert |parts| > 0;
    CutInFirstPart(parts, cfg.separator, m);
    w := ws[0][..m];
    assert parts[0][..m] == EmitWord(cfg.toLowercase, w);
    assert EmitWords(cfg.toLowercase, [w]) == [EmitWord(cfg.toLowercase, w)];
  }

  /**
    A rendering of words that fits the limit is a fixed point of the source's
    `slugify_ascii` and of the corrected one.
   */
  lemma {:induction false} FittingRenderIsFixedPoint(cfg: Slugifier, ws: seq<seq<byte>>)
    requires forall j :: 0 <= j < |ws| ==> IsWord(ws[j])
    requires IsAsciiString(cfg.separator) && |cfg.separator| > 0 && NoAlphanumericChar(cfg.separator)
    requires cfg.truncate.Some? ==> |Render(cfg, ws)| <= cfg.truncate.value
    ensures IsAsciiString(Render(cfg, ws))
    ensures SlugifyAscii(cfg, Bytes(Render(cfg, ws))) == Render(cfg, ws)
    ensures SlugifyAsciiIntended(cfg, Bytes(Render(cfg, ws))) == Render(cfg, ws)
  {
    RenderIsFixedPoint(cfg, ws);
  }

  // ---------------------------------------------------------------------------
  // The source: fixed points for one-character separators
  // ---------------------------------------------------------------------------

  /**
    Slugs are fixed points of `slugify_ascii`, truncation included, when the
    separator is ASCII, non-empty and without alphanumeric characters, and
    has exactly one character whenever a limit is set (the default `-` does).
   */
  lemma {:induction false} SlugifyAsciiIdempotent(cfg: Slugifier, text: seq<byte>)
    requires IsAsciiString(cfg.separator) && |cfg.separator| > 0 && NoAlphanumericChar(cfg.separator)
    requires cfg.truncate.Some? ==> |cfg.separator| == 1
    ensures IsAsciiString(SlugifyAscii(cfg, text))
    ensures SlugifyAscii(cfg, Bytes(SlugifyAscii(cfg, text))) == SlugifyAscii(cfg, text)
  {
    SlugifyAsciiIntendedIdempotent(cfg, text);
  }

  /**
    `Slugifier::slugify` is idempotent as well, for a transliteration that,
    like `any_ascii`, leaves ASCII text alone: a slug is ASCII, so the
    second call transliterates nothing and reduces to `slugify_ascii`.
   */
  lemma SlugifyIdempotent(cfg: Slugifier, translit: Transliteration, text: string)
    requires forall s :: IsAsciiString(s) ==> translit(s) == s
    requires IsAsciiString(cfg.separator) && |cfg.separator| > 0 && NoAlphanumericChar(cfg.separator)
    requires cfg.truncate.Some? ==> |cfg.separator| == 1
    ensures Slugify(cfg, translit, Slugify(cfg, translit, text)) == Slugify(cfg, translit, text)
  {
    SlugifyAsciiIdempotent(cfg, Bytes(translit(text)));
  }

  /**
    The source's cut is not idempotent with a two-character separator: with
    `--` and limit 3, `ab cd` gives the slug `ab--cd`, whose window `ab-`
    holds no whole `--`, so the hard cut leaves `ab-`; slugifying `ab-`
    gives `ab`. The corrected cut gives `ab` straight away.
   */
  lemma TwoCharSeparatorNotIdempotent()
    ensures var cfg := Slugifier("--", true, Some(3), "");
            && SlugifyAscii(cfg, Bytes("ab cd")) == "ab-"
            && SlugifyAscii(cfg, Bytes("ab-")) == "ab"
            && SlugifyAsciiIntended(cfg, Bytes("ab cd")) == "ab"
  {
    var cfg := Slugifier("--", true, Some(3), "");
    AbCdSourceCut(cfg);
    AbDashRescan(cfg);
    AbCdIntendedCut(cfg);
  }

  lemma AbCdSourceCut(cfg: Slugifier)
    requires cfg == Slugifier("--", true, Some(3), "")
    ensures SlugifyAscii(cfg, Bytes("ab cd")) == "ab-"
  {
    AbCdWords();
    AbCdRender();
    CutsOfAbCd(cfg);
  }

  lemma AbCdIntendedCut(cfg: Slugifier)
    requires cfg == Slugifier("--", true, Some(3), "")
    ensures SlugifyAsciiIntended(cfg, Bytes("ab cd")) == "ab"
  {
    AbCdWords();
    AbCdRender();
    CutsOfAbCd(cfg);
  }

  lemma AbDashRescan(cfg: Slugifier)
    requires cfg == Slugifier("--", true, Some(3), "")
    ensures SlugifyAscii(cfg, Bytes("ab-")) == "ab"
  {
    AbDashWords();
    assert EmitWord(true, Bytes("ab")) == "ab";
    assert EmitWords(true, [Bytes("ab")]) == ["ab"];
  }

  lemma AbCdWords()
    ensures Words(Bytes("ab cd")) == [Bytes("ab"), Bytes("cd")]
  {
    var ws := [Bytes("ab"), Bytes("cd")];
    assert "ab cd" == "ab" + " " + "cd";
    BytesAppend("ab", " ");
    BytesAppend("ab" + " ", "cd");
    assert Join(ws, Bytes(" ")) == Bytes("ab") + Bytes(" ") + Bytes("cd");
    WordsOfJoin(ws, Bytes(" "));
  }

  lemma AbCdRender()
    ensures Render(Slugifier("--", true, Some(3), ""), [Bytes("ab"), Bytes("cd")]) == "ab--cd"
  {
    var ws := [Bytes("ab"), Bytes("cd")];
    assert EmitWord(true, ws[0]) == "ab";
    assert EmitWord(true, ws[1]) == "cd";
    assert EmitWords(true, ws) == ["ab", "cd"];
    assert ["ab", "cd"][..1] == ["ab"];
  }

  /**
    Limit 3 on `ab--cd`: the window `ab-` holds no `--`, so the source cuts
    hard; the occurrence at 2 starts inside the limit, so the corrected cut
    falls before it.
   */
  lemma CutsOfAbCd(cfg: Slugifier)
    requires cfg == Slugifier("--", true, Some(3), "")
    ensures ApplyTruncation(cfg, "ab--cd") == "ab-"
    ensures ApplyTruncationIntended(cfg, "ab--cd") == "ab"
  {
    var slug := "ab--cd";
    assert slug[..3] == "ab-";
    assert "ab-"[0..2] == "ab" && "ab-"[1..3] == "b-";
    assert forall i :: !OccursAt("ab-", "--", i);
    assert slug[..4] == "ab--";
    assert slug[2..4] == "--";
    assert OccursAt(slug, "--", 2);
  }

  /** The trailing `-` of `ab-` is a boundary, not a word. */
  lemma AbDashWords()
    ensures Words(Bytes("ab-")) == [Bytes("ab")]
  {
    BytesAppend("ab", "-");
    assert "ab-" == "ab" + "-";
    WordsIgnoreTrailingBoundary(Bytes("ab"), Bytes("-"));
    WordsOfOneWord(Bytes("ab"), Bytes("-"));
  }

  // ---------------------------------------------------------------------------
  // The corrected cut: fixed points for every separator
  // ---------------------------------------------------------------------------

  /** `slugify_ascii` with the corrected cut `ApplyTruncationIntended`. */
  function SlugifyAsciiIntended(cfg: Slugifier, text: seq<byte>): (r: string)
    requires cfg.truncate.Some? ==> IsAsciiString(cfg.separator)
    ensures IsAsciiString(cfg.separator) ==> IsAsciiString(Render(cfg, Words(text)))
    ensures r == ApplyTruncationIntended(cfg, Render(cfg, Words(text)))
    ensures |cfg.separator| == 1 ==> r == SlugifyAscii(cfg, text)
  {
    var slug := Scan(cfg, text);
    if |cfg.separator| == 1 then
      IntendedAgreesOnOneCharSeparator(cfg, slug);
      ApplyTruncationIntended(cfg, slug)
    else
      ApplyTruncationIntended(cfg, slug)
  }

  /**
    With the corrected cut, slugs are fixed points for every non-empty ASCII
    separator without alphanumeric characters, whatever its length.
   */
  lemma {:induction false} SlugifyAsciiIntendedIdempotent(cfg: Slugifier, text: seq<byte>)
    requires IsAsciiString(cfg.separator) && |cfg.separator| > 0 && NoAlphanumericChar(cfg.separator)
    ensures IsAsciiString(SlugifyAsciiIntended(cfg, text))
    ensures SlugifyAsciiIntended(cfg, Bytes(SlugifyAsciiIntended(cfg, text))) == SlugifyAsciiIntended(cfg, text)
  {
    var slug := Scan(cfg, text);
    var r := SlugifyAsciiIntended(cfg, text);
    var ws := Words(text);
    if cfg.truncate.None? || |slug| <= cfg.truncate.value {
      FittingRenderIsFixedPoint(cfg, ws);
    } else if exists i :: i < cfg.truncate.value && OccursAt(slug, cfg.separator, i) {
      var k := CutAtOccurrenceIsRendering(cfg, text, |r|);
      FittingRenderIsFixedPoint(cfg, ws[..k]);
    } else if cfg.truncate.value == 0 {
      assert Bytes(r) == [];
    } else {
      var w := HardCutIsRendering(cfg, text, cfg.truncate.value);
      FittingRenderIsFixedPoint(cfg, [w]);
    }
  }
}
