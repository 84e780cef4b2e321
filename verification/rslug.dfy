/**
  The public slug operations of src/lib.rs: `Slugifier::slugify`,
  `Slugifier::slugify_ascii` and the `slugify!` / `slugify_ascii!` macros,
  each the slug scan followed by `apply_truncation`, and what truncation
  keeps of a slug's words.
 */
module Rslug {
  import opened Ascii
  import opened Config
  import opened Slug
  import opened Truncation

  /**
    The `any_ascii` transliteration, a collaborator whose table is not part of
    this model: any total, deterministic map whose results are ASCII.
   */
  type Transliteration = f: string -> string | forall s :: IsAsciiString(f(s))
    witness (s: string) => ""

  /**
    `Slugifier::slugify_ascii`: the maximal alphanumeric runs of the bytes,
    case-mapped and joined by the separator, then truncated. A non-empty
    result starts with an alphanumeric character, and input without
    alphanumeric bytes gives the empty slug.
   */
  function SlugifyAscii(cfg: Slugifier, text: seq<byte>): (r: string)
    requires cfg.truncate.Some? ==> IsAsciiString(cfg.separator)
    ensures IsAsciiString(cfg.separator) ==> IsAsciiString(Render(cfg, Words(text)))
    ensures r == ApplyTruncation(cfg, Render(cfg, Words(text)))
    ensures r <= Render(cfg, Words(text))
    ensures NoAlphanumeric(text) ==> r == []
    ensures |r| > 0 ==> IsAlphanumericChar(r[0])
  {
    ApplyTruncation(cfg, Scan(cfg, text))
  }

  /**
    `Slugifier::slugify`: transliterate, then run the same scan and truncation
    over the bytes of the ASCII result. On ASCII text that the transliteration
    leaves alone, it agrees with `slugify_ascii` on the text's bytes.
   */
  function Slugify(cfg: Slugifier, translit: Transliteration, text: string): (r: string)
    requires cfg.truncate.Some? ==> IsAsciiString(cfg.separator)
    ensures r == SlugifyAscii(cfg, Bytes(translit(text)))
    ensures IsAsciiString(text) && translit(text) == text ==> r == SlugifyAscii(cfg, Bytes(text))
  {
    ApplyTruncation(cfg, Scan(cfg, Bytes(translit(text))))
  }

  /** The `slugify!` macro: `Slugifier::new().slugify(text)`, which never truncates. */
  function SlugifyDefault(translit: Transliteration, text: string): (r: string)
    ensures r == Render(Default(), Words(Bytes(translit(text))))
  {
    Slugify(Default(), translit, text)
  }

  /** The `slugify_ascii!` macro: `Slugifier::new().slugify_ascii(text)`, which never truncates. */
  function SlugifyAsciiDefault(text: seq<byte>): (r: string)
    ensures r == Render(Default(), Words(text))
  {
    SlugifyAscii(Default(), text)
  }

  // ---------------------------------------------------------------------------
  // What truncation keeps of the words
  // ---------------------------------------------------------------------------

  /** A non-empty string of ASCII alphanumeric characters. */
  predicate IsTextWord(s: string) {
    |s| > 0 && forall i :: 0 <= i < |s| ==> IsAlphanumericChar(s[i])
  }

  lemma {:induction false} EmitWordsAreTextWords(lower: bool, ws: seq<seq<byte>>)
    requires forall j :: 0 <= j < |ws| ==> IsWord(ws[j])
    ensures forall j :: 0 <= j < |ws| ==> IsTextWord(EmitWords(lower, ws)[j])
  {
    forall j, i | 0 <= j < |ws| && 0 <= i < |ws[j]|
      ensures IsAlphanumericChar(EmitWords(lower, ws)[j][i])
    {
      EmitIsAlphanumeric(lower, ws[j][i]);
    }
  }

  lemma JoinEndsWithLast<T>(parts: seq<seq<T>>, sep: seq<T>)
    requires |parts| > 0
    ensures var j, w := Join(parts, sep), parts[|parts| - 1];
            |w| <= |j| && j[|j| - |w|..] == w
  {
  }

  /**
    In `front + sep + w`, where `front` ends with and `w` consists of
    alphanumeric characters and `sep` has none, an occurrence of `sep` lies
    inside `front` or is the one between them.
   */
  lemma {:induction false} OccurrenceBeforeLastWord(front: string, sep: string, w: string, i: int)
    requires |front| > 0 && IsAlphanumericChar(front[|front| - 1])
    requires IsTextWord(w)
    requires |sep| > 0 && NoAlphanumericChar(sep)
    requires OccursAt(front + sep + w, sep, i)
    ensures i + |sep| <= |front| || i == |front|
  {
    var whole, len := front + sep + w, |front|;
    forall q | i <= q < i + |sep| ensures !IsAlphanumericChar(whole[q]) {
      assert whole[q] == whole[i..i + |sep|][q - i];
    }
    forall q | len + |sep| <= q < |whole| ensures IsAlphanumericChar(whole[q]) {
      assert whole[q] == w[q - len - |sep|];
    }
    assert whole[len - 1] == front[len - 1];
    assert !IsAlphanumericChar(whole[i + |sep| - 1]);
  }

  /** Two or more words joined: the join of all but the last, the separator, and the last word. */
  lemma {:induction false} LastWordSplit(parts: seq<string>, sep: string)
    requires |parts| >= 2
    requires forall j :: 0 <= j < |parts| ==> IsTextWord(parts[j])
    ensures Join(parts, sep) == Join(parts[..|parts| - 1], sep) + sep + parts[|parts| - 1]
    ensures var front := Join(parts[..|parts| - 1], sep);
            |front| > 0 && IsAlphanumericChar(front[|front| - 1])
  {
    var init := parts[..|parts| - 1];
    var front := Join(init, sep);
    JoinEndsWithLast(init, sep);
    var u := init[|init| - 1];
    assert IsTextWord(u);
    assert front[|front| - 1] == front[|front| - |u|..][|u| - 1];
  }

  /**
    In words joined by a separator without alphanumeric characters, the
    separator occurs only where the join put it: every occurrence ends a
    prefix that is itself the join of the first `k` words.
   */
  lemma {:induction false} SeparatorOnlyBetweenWords(parts: seq<string>, sep: string, i: int) returns (k: nat)
    requires forall j :: 0 <= j < |parts| ==> IsTextWord(parts[j])
    requires |sep| > 0 && NoAlphanumericChar(sep)
    requires OccursAt(Join(parts, sep), sep, i)
    ensures 1 <= k < |parts|
    ensures Join(parts, sep)[..i] == Join(parts[..k], sep)
    ensures i + |sep| < |Join(parts, sep)| && IsAlphanumericChar(Join(parts, sep)[i + |sep|])
    decreases |parts|
  {
    var n := |parts|;
    var whole := Join(parts, sep);
    assert whole[i] == whole[i..i + |sep|][0];
    assert !IsAlphanumericChar(whole[i]);
    assert n >= 2;
    var init, w := parts[..n - 1], parts[n - 1];
    var front := Join(init, sep);
    LastWordSplit(parts, sep);
    OccurrenceBeforeLastWord(front, sep, w, i);
    if i + |sep| <= |front| {
      OccurrenceInFront(front, sep, w, i);
      k := SeparatorOnlyBetweenWords(init, sep, i);
      assert init[..k] == parts[..k];
    } else {
      k := n - 1;
      OccurrenceAtLastSeparator(front, sep, w, i);
    }
  }

  /** An occurrence of `sep` inside `front` is one of `front` itself, with the same text before and after it. */
  lemma {:induction false} OccurrenceInFront(front: string, sep: string, w: string, i: int)
    requires i + |sep| <= |front|
    requires OccursAt(front + sep + w, sep, i)
    ensures OccursAt(front, sep, i)
    ensures (front + sep + w)[..i] == front[..i]
    ensures i + |sep| < |front| ==> (front + sep + w)[i + |sep|] == front[i + |sep|]
  {
    var whole := front + sep + w;
    assert front[i..i + |sep|] == whole[i..i + |sep|];
  }

  /** The occurrence of `sep` right after `front` has `front` before it and the first character of `w` after it. */
  lemma {:induction false} OccurrenceAtLastSeparator(front: string, sep: string, w: string, i: int)
    requires i == |front| && |w| > 0
    ensures (front + sep + w)[..i] == front
    ensures (front + sep + w)[i + |sep|] == w[0]
  {
    var whole := front + sep + w;
    assert whole[..i] == front;
  }

  /**
    A cut at a separator keeps whole words: when the separator is non-empty
    ASCII without alphanumeric characters and truncation cuts at one of its
    occurrences, the result is the slug of the first `k` words, for some `k`
    short of all of them.
   */
  lemma {:induction false} TruncationKeepsWholeWords(cfg: Slugifier, text: seq<byte>) returns (k: nat)
    requires cfg.truncate.Some? && IsAsciiString(cfg.separator)
    requires |cfg.separator| > 0 && NoAlphanumericChar(cfg.separator)
    requires |Scan(cfg, text)| > cfg.truncate.value
    requires exists i :: OccursAt(Scan(cfg, text)[..cfg.truncate.value], cfg.separator, i)
    ensures 1 <= k < |Words(text)|
    ensures SlugifyAscii(cfg, text) == Render(cfg, Words(text)[..k])
  {
    var slug := Scan(cfg, text);
    var ws := Words(text);
    var parts := EmitWords(cfg.toLowercase, ws);
    CutEndsBeforeSeparator(cfg, slug);
    var r := ApplyTruncation(cfg, slug);
    EmitWordsAreTextWords(cfg.toLowercase, ws);
    k := SeparatorOnlyBetweenWords(parts, cfg.separator, |r|);
    assert r == slug[..|r|];
    assert EmitWords(cfg.toLowercase, ws[..k]) == parts[..k];
  }

  /**
    With a one-character separator, every character of a slug that is not
    alphanumeric is the separator.
   */
  lemma {:induction false} NonWordCharIsSeparator(parts: seq<string>, sep: string, p: int)
    requires forall j :: 0 <= j < |parts| ==> IsTextWord(parts[j])
    requires |sep| == 1
    requires 0 <= p < |Join(parts, sep)|
    ensures !IsAlphanumericChar(Join(parts, sep)[p]) ==> Join(parts, sep)[p] == sep[0]
    decreases |parts|
  {
    var n := |parts|;
    if n > 1 {
      var init, w := parts[..n - 1], parts[n - 1];
      var front := Join(init, sep);
      assert Join(parts, sep) == front + sep + w;
      if p < |front| {
        NonWordCharIsSeparator(init, sep, p);
      }
    }
  }

  /**
    With a one-character separator that is not alphanumeric (the default
    `-`), a truncated slug still ends with an alphanumeric character, whether
    the cut fell at a separator or inside a word.
   */
  lemma {:induction false} TruncatedSlugEndsInWord(cfg: Slugifier, text: seq<byte>)
    requires (cfg.truncate.Some? ==> IsAsciiString(cfg.separator)) && |cfg.separator| == 1
    requires NoAlphanumericChar(cfg.separator)
    ensures var r := SlugifyAscii(cfg, text);
            |r| > 0 ==> IsAlphanumericChar(r[|r| - 1])
  {
    var slug := Scan(cfg, text);
    var r := SlugifyAscii(cfg, text);
    var ws := Words(text);
    var parts := EmitWords(cfg.toLowercase, ws);
    EmitWordsAreTextWords(cfg.toLowercase, ws);
    if |r| > 0 && cfg.truncate.Some? && |slug| > cfg.truncate.value {
      var m := cfg.truncate.value;
      var window := slug[..m];
      if exists i :: OccursAt(window, cfg.separator, i) {
        var k := TruncationKeepsWholeWords(cfg, text);
        RenderShape(cfg, ws[..k]);
      } else {
        HardCutEndsInWord(parts, cfg.separator, m);
      }
    }
  }

  /**
    A hard cut of a slug with a one-character separator, at a point where the
    kept part holds no separator, ends with an alphanumeric character.
   */
  lemma {:induction false} HardCutEndsInWord(parts: seq<string>, sep: string, m: nat)
    requires forall j :: 0 <= j < |parts| ==> IsTextWord(parts[j])
    requires |sep| == 1 && NoAlphanumericChar(sep)
    requires 0 < m <= |Join(parts, sep)|
    requires forall i :: !OccursAt(Join(parts, sep)[..m], sep, i)
    ensures IsAlphanumericChar(Join(parts, sep)[m - 1])
  {
    var window := Join(parts, sep)[..m];
    NonWordCharIsSeparator(parts, sep, m - 1);
    assert window[m - 1..m] == [window[m - 1]];
    assert !OccursAt(window, sep, m - 1);
  }

  // ---------------------------------------------------------------------------
  // No doubled separators
  // ---------------------------------------------------------------------------

  /** Every occurrence of the separator in the untruncated slug is followed by an alphanumeric character. */
  lemma {:induction false} SeparatorFollowedByWord(cfg: Slugifier, text: seq<byte>, i: int)
    requires |cfg.separator| > 0 && NoAlphanumericChar(cfg.separator)
    requires OccursAt(Scan(cfg, text), cfg.separator, i)
    ensures i + |cfg.separator| < |Scan(cfg, text)|
    ensures IsAlphanumericChar(Scan(cfg, text)[i + |cfg.separator|])
  {
    var ws := Words(text);
    EmitWordsAreTextWords(cfg.toLowercase, ws);
    var k := SeparatorOnlyBetweenWords(EmitWords(cfg.toLowercase, ws), cfg.separator, i);
  }

  /** A separator occurrence ending the result would end it with a non-alphanumeric character. */
  lemma {:induction false} SlugifyAsciiEnd(cfg: Slugifier, text: seq<byte>)
    requires (cfg.truncate.Some? ==> IsAsciiString(cfg.separator)) && |cfg.separator| > 0 && NoAlphanumericChar(cfg.separator)
    ensures EndsInWordOrHasNoSeparator(SlugifyAscii(cfg, text), cfg.separator)
  {
    var slug := Scan(cfg, text);
    if cfg.truncate.Some? && |slug| > cfg.truncate.value {
      if exists j :: OccursAt(slug[..cfg.truncate.value], cfg.separator, j) {
        var k := TruncationKeepsWholeWords(cfg, text);
        RenderShape(cfg, Words(text)[..k]);
      }
    }
  }

  /** An occurrence of `needle` starts with its first character and ends with its last. */
  lemma {:induction false} OccurrenceEdges(s: string, needle: string, j: int)
    requires |needle| > 0 && OccursAt(s, needle, j)
    ensures s[j] == needle[0] && s[j + |needle| - 1] == needle[|needle| - 1]
  {
    assert s[j] == s[j..j + |needle|][0];
    assert s[j + |needle| - 1] == s[j..j + |needle|][|needle| - 1];
  }

  /** A prefix of a slug keeps every separator occurrence it holds whole followed by what followed it. */
  lemma {:induction false} PrefixKeepsFollowers(r: string, slug: string, sep: string)
    requires r <= slug
    requires SeparatorsFollowedByWords(slug, sep)
    ensures SeparatorsFollowedByWords(r, sep)
  {
    forall i | OccursAt(r, sep, i) && i + |sep| < |r| ensures IsAlphanumericChar(r[i + |sep|]) {
      assert r == slug[..|r|];
      assert r[i..i + |sep|] == slug[i..i + |sep|];
      assert OccursAt(slug, sep, i);
      assert r[i + |sep|] == slug[i + |sep|];
    }
  }

  /** A slug ends with an alphanumeric character, unless the separator does not occur in it at all. */
  ghost predicate EndsInWordOrHasNoSeparator(r: string, sep: string) {
    (|r| > 0 && IsAlphanumericChar(r[|r| - 1])) || forall j :: !OccursAt(r, sep, j)
  }

  /** Every occurrence of the separator not at the very end of a slug is followed by an alphanumeric character. */
  ghost predicate SeparatorsFollowedByWords(r: string, sep: string) {
    forall i :: OccursAt(r, sep, i) && i + |sep| < |r| ==> IsAlphanumericChar(r[i + |sep|])
  }

  /**
    What is known of the characters around separator occurrences in a slug:
    it starts with an alphanumeric character, it ends with one unless the
    separator does not occur at all, and every occurrence not at the very
    end is followed by one.
   */
  ghost predicate SeparatorsFramedByWords(r: string, sep: string) {
    && (|r| > 0 ==> IsAlphanumericChar(r[0]))
    && EndsInWordOrHasNoSeparator(r, sep)
    && SeparatorsFollowedByWords(r, sep)
  }

  /**
    No doubled separators: the slug neither starts nor ends with the
    separator, and two occurrences of the separator are never exactly one
    separator length apart, so no occurrence is directly followed by another.
   */
  ghost predicate NoDoubled(r: string, sep: string) {
    && !OccursAt(r, sep, 0)
    && !OccursAt(r, sep, |r| - |sep|)
    && forall i, j :: OccursAt(r, sep, i) && OccursAt(r, sep, j) ==> j != i + |sep|
  }

  /** The shape facts, from what is known of the characters around separator occurrences. */
  lemma {:induction false} NoDoubledFromEdges(r: string, sep: string)
    requires |sep| > 0 && !IsAlphanumericChar(sep[0]) && !IsAlphanumericChar(sep[|sep| - 1])
    requires SeparatorsFramedByWords(r, sep)
    ensures NoDoubled(r, sep)
  {
    if OccursAt(r, sep, 0) {
      OccurrenceEdges(r, sep, 0);
    }
    if OccursAt(r, sep, |r| - |sep|) {
      OccurrenceEdges(r, sep, |r| - |sep|);
    }
    forall i, j | OccursAt(r, sep, i) && OccursAt(r, sep, j) ensures j != i + |sep| {
      OccurrenceEdges(r, sep, j);
    }
  }

  /** The result of `slugify_ascii` has its separator occurrences framed by words. */
  lemma {:induction false} ResultFramedByWords(cfg: Slugifier, text: seq<byte>)
    requires (cfg.truncate.Some? ==> IsAsciiString(cfg.separator)) && |cfg.separator| > 0 && NoAlphanumericChar(cfg.separator)
    ensures SeparatorsFramedByWords(SlugifyAscii(cfg, text), cfg.separator)
  {
    SlugifyAsciiEnd(cfg, text);
    ResultSeparatorsFollowedByWords(cfg, text);
  }

  /**
    No doubled separators in `slugify_ascii`, truncated or not, whenever the
    separator is non-empty and holds no alphanumeric character.
   */
  lemma {:induction false} NoDoubledSeparators(cfg: Slugifier, text: seq<byte>)
    requires (cfg.truncate.Some? ==> IsAsciiString(cfg.separator)) && |cfg.separator| > 0 && NoAlphanumericChar(cfg.separator)
    ensures NoDoubled(SlugifyAscii(cfg, text), cfg.separator)
  {
    ResultFramedByWords(cfg, text);
    assert !IsAlphanumericChar(cfg.separator[0]);
    assert !IsAlphanumericChar(cfg.separator[|cfg.separator| - 1]);
    NoDoubledFromEdges(SlugifyAscii(cfg, text), cfg.separator);
  }

  /** Without a limit the separator need not be ASCII: with `—` there are no doubled separators either. */
  lemma {:induction false} NoDoubledEmDash(text: seq<byte>)
    ensures NoDoubled(SlugifyAscii(WithSeparator(Default(), "—"), text), "—")
  {
    NoDoubledSeparators(WithSeparator(Default(), "—"), text);
  }

  /** Every separator occurrence in the result that is not at its very end is followed by an alphanumeric character. */
  lemma {:induction false} ResultSeparatorsFollowedByWords(cfg: Slugifier, text: seq<byte>)
    requires (cfg.truncate.Some? ==> IsAsciiString(cfg.separator)) && |cfg.separator| > 0 && NoAlphanumericChar(cfg.separator)
    ensures SeparatorsFollowedByWords(SlugifyAscii(cfg, text), cfg.separator)
  {
    var slug, sep := Scan(cfg, text), cfg.separator;
    forall i | OccursAt(slug, sep, i) && i + |sep| < |slug| ensures IsAlphanumericChar(slug[i + |sep|]) {
      SeparatorFollowedByWord(cfg, text, i);
    }
    PrefixKeepsFollowers(SlugifyAscii(cfg, text), slug, sep);
  }
}
