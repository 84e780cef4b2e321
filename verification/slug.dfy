/**
  The separator-collapsing scan shared by `Slugifier::slugify` and
  `Slugifier::slugify_ascii` (src/lib.rs), before truncation.

  The scan is modelled twice: `Run` is the loop of the source step by step
  (a slug under construction plus the `found_sep` flag), and `Words`/`Render`
  is an independent description of what it computes: the maximal runs of
  ASCII alphanumeric bytes, each case-mapped, joined by the separator.
  `ScanInvariant` proves the two agree on every input.
 */
module Slug {
  import opened Ascii
  import opened Config

  // ---------------------------------------------------------------------------
  // Reference description: words and joining
  // ---------------------------------------------------------------------------

  /** A non-empty run of alphanumeric bytes. */
  predicate IsWord(w: seq<byte>) {
    |w| > 0 && forall i :: 0 <= i < |w| ==> IsAlphanumeric(w[i])
  }

  predicate NoAlphanumeric(text: seq<byte>) {
    forall i :: 0 <= i < |text| ==> !IsAlphanumeric(text[i])
  }

  /** Where the maximal run of alphanumeric bytes at the end of `s` starts. */
  function AlnumSuffixStart(s: seq<byte>): (k: nat)
    ensures k <= |s|
    ensures forall i :: k <= i < |s| ==> IsAlphanumeric(s[i])
    ensures k == 0 || !IsAlphanumeric(s[k - 1])
    decreases |s|
  {
    if |s| == 0 || !IsAlphanumeric(s[|s| - 1]) then |s| else AlnumSuffixStart(s[..|s| - 1])
  }

  /** The maximal runs of alphanumeric bytes of `text`, in order. */
  function Words(text: seq<byte>): (ws: seq<seq<byte>>)
    ensures forall j :: 0 <= j < |ws| ==> IsWord(ws[j])
    ensures ws == [] <==> NoAlphanumeric(text)
    decreases |text|
  {
    if |text| == 0 then []
    else if !IsAlphanumeric(text[|text| - 1]) then Words(text[..|text| - 1])
    else
      var k := AlnumSuffixStart(text);
      Words(text[..k]) + [text[k..]]
  }

  /** The parts with exactly one `sep` between neighbours and none at either end. */
  function Join<T>(parts: seq<seq<T>>, sep: seq<T>): seq<T>
    decreases |parts|
  {
    if |parts| == 0 then []
    else if |parts| == 1 then parts[0]
    else Join(parts[..|parts| - 1], sep) + sep + parts[|parts| - 1]
  }

  /** The character pushed for an alphanumeric byte: lower-cased when `lower` is set. */
  function EmitByte(lower: bool, b: byte): (c: char)
    ensures IsAsciiChar(c) <==> b < 128
    ensures IsAlphanumeric(b) ==> IsAlphanumericChar(c)
    ensures !lower ==> c as int == b as int
    ensures lower && IsUpper(b) ==> c as int == b as int + 32
    ensures lower && !IsUpper(b) ==> c as int == b as int
    ensures lower && b < 128 ==> !IsUpper(ToByte(c))
  {
    ToChar(if lower then ToLower(b) else b)
  }

  function EmitWord(lower: bool, w: seq<byte>): (s: string)
    ensures |s| == |w|
  {
    seq(|w|, i requires 0 <= i < |w| => EmitByte(lower, w[i]))
  }

  function EmitWords(lower: bool, ws: seq<seq<byte>>): (ss: seq<string>)
    ensures |ss| == |ws|
  {
    seq(|ws|, i requires 0 <= i < |ws| => EmitWord(lower, ws[i]))
  }

  /** The words, case-mapped, joined by the configured separator. */
  function Render(cfg: Slugifier, ws: seq<seq<byte>>): string {
    Join(EmitWords(cfg.toLowercase, ws), cfg.separator)
  }

  // ---------------------------------------------------------------------------
  // The loop of the source
  // ---------------------------------------------------------------------------

  /** The loop state: the slug built so far and `found_sep`. */
  datatype ScanState = ScanState(slug: string, foundSep: bool)

  /**
    One iteration of the loop body on byte `c`: a non-alphanumeric byte only
    raises `found_sep`, an alphanumeric one clears it.
   */
  function Step(cfg: Slugifier, st: ScanState, c: byte): (r: ScanState)
    ensures r.foundSep <==> !IsAlphanumeric(c)
    ensures !IsAlphanumeric(c) ==> r.slug == st.slug
  {
    if IsAlphanumeric(c) then
      var slug := if st.foundSep && |st.slug| > 0 then st.slug + cfg.separator else st.slug;
      ScanState(slug + [EmitByte(cfg.toLowercase, c)], false)
    else
      ScanState(st.slug, true)
  }

  /**
    The loop state after the loop has consumed `text`. The slug stays empty
    exactly as long as no alphanumeric byte has been consumed.
   */
  function Run(cfg: Slugifier, text: seq<byte>): (r: ScanState)
    ensures r.slug == [] <==> NoAlphanumeric(text)
    decreases |text|
  {
    if |text| == 0 then ScanState([], false)
    else Step(cfg, Run(cfg, text[..|text| - 1]), text[|text| - 1])
  }

  /**
    The slug the loop leaves behind, before truncation: the maximal
    alphanumeric runs, case-mapped and joined by the separator. It begins and
    ends with an alphanumeric character, so never with a non-empty separator
    whose first and last characters are not alphanumeric (with separator `a`,
    `a b` gives `aab`). It is empty exactly when the input has no
    alphanumeric byte, and it is ASCII when the separator is.
   */
  function Scan(cfg: Slugifier, text: seq<byte>): (slug: string)
    ensures slug == Render(cfg, Words(text))
    ensures slug == [] <==> NoAlphanumeric(text)
    ensures |slug| > 0 ==> IsAlphanumericChar(slug[0]) && IsAlphanumericChar(slug[|slug| - 1])
    ensures IsAsciiString(cfg.separator) ==> IsAsciiString(slug)
  {
    ScanInvariant(cfg, text);
    RenderShape(cfg, Words(text));
    Run(cfg, text).slug
  }

  /** The `for` loop of `slugify_ascii`, statement by statement. */
  method ScanLoop(cfg: Slugifier, text: seq<byte>) returns (slug: string)
    ensures slug == Render(cfg, Words(text))
  {
    slug := [];
    var foundSep := false;
    for i := 0 to |text|
      invariant ScanState(slug, foundSep) == Run(cfg, text[..i])
    {
      var c := text[i];
      if IsAlphanumeric(c) {
        if foundSep && |slug| > 0 {
          slug := slug + cfg.separator;
        }
        slug := slug + [ToChar(if cfg.toLowercase then ToLower(c) else c)];
        foundSep := false;
      } else {
        foundSep := true;
      }
      assert text[..i + 1][..i] == text[..i];
    }
    assert text[..|text|] == text;
    ScanInvariant(cfg, text);
  }

  // ---------------------------------------------------------------------------
  // The loop computes the reference description
  // ---------------------------------------------------------------------------

  lemma JoinSnoc<T>(parts: seq<seq<T>>, last: seq<T>, sep: seq<T>)
    ensures Join(parts + [last], sep) == if parts == [] then last else Join(parts, sep) + sep + last
  {
    assert (parts + [last])[..|parts|] == parts;
  }

  lemma EmitWordsSnoc(lower: bool, ws: seq<seq<byte>>, w: seq<byte>)
    ensures EmitWords(lower, ws + [w]) == EmitWords(lower, ws) + [EmitWord(lower, w)]
  {
  }

  /** Rendering one more word adds the separator and the word (or just the word). */
  lemma RenderSnoc(cfg: Slugifier, ws: seq<seq<byte>>, w: seq<byte>)
    ensures Render(cfg, ws + [w]) ==
            if ws == [] then EmitWord(cfg.toLowercase, w)
            else Render(cfg, ws) + cfg.separator + EmitWord(cfg.toLowercase, w)
  {
    EmitWordsSnoc(cfg.toLowercase, ws, w);
    JoinSnoc(EmitWords(cfg.toLowercase, ws), EmitWord(cfg.toLowercase, w), cfg.separator);
  }

  /** Growing the last word by one byte grows the rendering by one character. */
  lemma RenderExtendLast(cfg: Slugifier, ws: seq<seq<byte>>, w: seq<byte>, c: byte)
    ensures Render(cfg, ws + [w + [c]]) == Render(cfg, ws + [w]) + [EmitByte(cfg.toLowercase, c)]
  {
    RenderSnoc(cfg, ws, w + [c]);
    RenderSnoc(cfg, ws, w);
    assert EmitWord(cfg.toLowercase, w + [c]) == EmitWord(cfg.toLowercase, w) + [EmitByte(cfg.toLowercase, c)];
  }

  /**
    The rendering of words is empty exactly when there are no words, begins
    and ends with an alphanumeric character, and is ASCII when the separator is.
   */
  lemma {:induction false} RenderShape(cfg: Slugifier, ws: seq<seq<byte>>)
    requires forall j :: 0 <= j < |ws| ==> IsWord(ws[j])
    ensures var r := Render(cfg, ws);
            && (r == [] <==> ws == [])
            && (ws != [] ==> IsAlphanumericChar(r[0]) && IsAlphanumericChar(r[|r| - 1]))
            && (IsAsciiString(cfg.separator) ==> IsAsciiString(r))
    decreases |ws|
  {
    if ws != [] {
      var n := |ws|;
      var init := ws[..n - 1];
      assert ws == init + [ws[n - 1]];
      RenderSnoc(cfg, init, ws[n - 1]);
      RenderShape(cfg, init);
      if init != [] {
        assert init[0] == ws[0];
      }
      EmitIsAlphanumeric(cfg.toLowercase, ws[0][0]);
      EmitIsAlphanumeric(cfg.toLowercase, ws[n - 1][|ws[n - 1]| - 1]);
      var r := Render(cfg, ws);
      if IsAsciiString(cfg.separator) {
        var e := EmitWord(cfg.toLowercase, ws[n - 1]);
        forall i | 0 <= i < |e| ensures IsAsciiChar(e[i]) {
          EmitIsAlphanumeric(cfg.toLowercase, ws[n - 1][i]);
        }
      }
    }
  }

  lemma EmitIsAlphanumeric(lower: bool, b: byte)
    requires IsAlphanumeric(b)
    ensures IsAlphanumericChar(EmitByte(lower, b))
  {
  }

  /**
    The loop invariant of the source: after any prefix of the input, the slug
    is the rendering of that prefix's words, and `found_sep` says whether the
    prefix ends in a non-alphanumeric byte.
   */
  lemma {:induction false} ScanInvariant(cfg: Slugifier, text: seq<byte>)
    ensures Run(cfg, text).slug == Render(cfg, Words(text))
    ensures Run(cfg, text).foundSep <==> |text| > 0 && !IsAlphanumeric(text[|text| - 1])
    decreases |text|
  {
    if |text| > 0 {
      var n := |text|;
      var p, c := text[..n - 1], text[n - 1];
      ScanInvariant(cfg, p);
      if IsAlphanumeric(c) {
        var k := AlnumSuffixStart(text);
        if k == n - 1 {
          ScanStartsWord(cfg, text);
        } else {
          ScanExtendsWord(cfg, text);
        }
      }
    }
  }

  /** An alphanumeric byte after a boundary (or at the start) starts a new word. */
  lemma ScanStartsWord(cfg: Slugifier, text: seq<byte>)
    requires |text| > 0 && IsAlphanumeric(text[|text| - 1])
    requires AlnumSuffixStart(text) == |text| - 1
    requires Run(cfg, text[..|text| - 1]).slug == Render(cfg, Words(text[..|text| - 1]))
    requires Run(cfg, text[..|text| - 1]).foundSep <==> |text| > 1 && !IsAlphanumeric(text[|text| - 2])
    ensures Run(cfg, text).slug == Render(cfg, Words(text))
  {
    var n := |text|;
    var p, c := text[..n - 1], text[n - 1];
    assert text[n - 1..] == [c];
    RenderSnoc(cfg, Words(p), [c]);
    RenderShape(cfg, Words(p));
    assert EmitWord(cfg.toLowercase, [c]) == [EmitByte(cfg.toLowercase, c)];
  }

  /** An alphanumeric byte after an alphanumeric byte extends the last word. */
  lemma ScanExtendsWord(cfg: Slugifier, text: seq<byte>)
    requires |text| > 0 && IsAlphanumeric(text[|text| - 1])
    requires AlnumSuffixStart(text) < |text| - 1
    requires Run(cfg, text[..|text| - 1]).slug == Render(cfg, Words(text[..|text| - 1]))
    requires Run(cfg, text[..|text| - 1]).foundSep <==> |text| > 1 && !IsAlphanumeric(text[|text| - 2])
    ensures Run(cfg, text).slug == Render(cfg, Words(text))
  {
    var n := |text|;
    var p, c := text[..n - 1], text[n - 1];
    var k := AlnumSuffixStart(text);
    assert AlnumSuffixStart(p) == k;
    assert p[..k] == text[..k];
    assert text[k..] == p[k..] + [c];
    assert Words(p) == Words(p[..k]) + [p[k..]];
    RenderExtendLast(cfg, Words(p[..k]), p[k..], c);
  }
}
