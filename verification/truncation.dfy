/**
  `Slugifier::apply_truncation` of src/lib.rs: the word-boundary-aware cut of
  a slug to the configured maximum length, built on `str::rfind`.

  Lengths and indices in the source count bytes. Slugs and separators that
  reach a cut are ASCII here, so each character is one byte and character
  indices are byte indices.
 */
module Truncation {
  import opened Ascii
  import opened Config

  /** `needle` occurs in `s` starting at index `i`. */
  predicate OccursAt<T(==)>(s: seq<T>, needle: seq<T>, i: int) {
    0 <= i && i + |needle| <= |s| && s[i..i + |needle|] == needle
  }

  /**
    `str::rfind`: the start of the last occurrence of `needle` in `s`, if any.
    An empty needle occurs last at the very end.
   */
  function RFind(s: string, needle: string): (r: Option<nat>)
    ensures r.Some? ==> OccursAt(s, needle, r.value)
    ensures r.Some? ==> forall j :: r.value < j ==> !OccursAt(s, needle, j)
    ensures r.None? ==> forall j :: !OccursAt(s, needle, j)
  {
    if |needle| > |s| then None else RFindFrom(s, needle, |s| - |needle|)
  }

  /** The search of `RFind`, trying start positions from `i` downwards. */
  function RFindFrom(s: string, needle: string, i: nat): (r: Option<nat>)
    requires i + |needle| <= |s|
    requires forall j :: i < j ==> !OccursAt(s, needle, j)
    ensures r.Some? ==> r.value <= i && OccursAt(s, needle, r.value)
    ensures r.Some? ==> forall j :: r.value < j ==> !OccursAt(s, needle, j)
    ensures r.None? ==> forall j :: !OccursAt(s, needle, j)
    decreases i
  {
    if s[i..i + |needle|] == needle then Some(i)
    else if i == 0 then None
    else RFindFrom(s, needle, i - 1)
  }

  /**
    `apply_truncation`. Nothing happens unless a limit is set and the slug is
    longer than it. Otherwise, if the separator is non-empty and occurs in
    the first `max_len` characters, the slug is cut just before the last such
    occurrence; if not, it is cut to exactly `max_len` characters.
   */
  function ApplyTruncation(cfg: Slugifier, slug: string): (r: string)
    requires cfg.truncate.Some? ==> IsAsciiString(cfg.separator) && IsAsciiString(slug)
    ensures r <= slug
    ensures cfg.truncate.None? || |slug| <= cfg.truncate.value ==> r == slug
    ensures cfg.truncate.Some? ==> |r| <= cfg.truncate.value
    ensures cfg.truncate.Some? && |slug| > cfg.truncate.value ==>
              var window := slug[..cfg.truncate.value];
              if |cfg.separator| > 0 && exists i :: OccursAt(window, cfg.separator, i) then
                && OccursAt(window, cfg.separator, |r|)
                && forall j :: |r| < j ==> !OccursAt(window, cfg.separator, j)
              else
                r == window
  {
    match cfg.truncate
    case None => slug
    case Some(maxLen) =>
      if |slug| <= maxLen then slug
      else
        var found := RFind(slug[..maxLen], cfg.separator);
        if |cfg.separator| > 0 && found.Some? then slug[..found.value]
        else slug[..maxLen]
  }

  /** A cut at a separator leaves a slug that the separator followed in the original. */
  lemma CutEndsBeforeSeparator(cfg: Slugifier, slug: string)
    requires cfg.truncate.Some? && IsAsciiString(cfg.separator) && IsAsciiString(slug)
    requires |slug| > cfg.truncate.value && |cfg.separator| > 0
    requires exists i :: OccursAt(slug[..cfg.truncate.value], cfg.separator, i)
    ensures var r := ApplyTruncation(cfg, slug);
            OccursAt(slug, cfg.separator, |r|) && |r| + |cfg.separator| <= cfg.truncate.value
  {
    var r := ApplyTruncation(cfg, slug);
    var window := slug[..cfg.truncate.value];
    assert window[|r|..|r| + |cfg.separator|] == slug[|r|..|r| + |cfg.separator|];
  }

  /** An occurrence inside the prefix of length `m` is one in the whole sequence that ends by `m`, and back. */
  lemma OccursInPrefix<T>(s: seq<T>, needle: seq<T>, m: nat, i: int)
    requires m <= |s|
    ensures OccursAt(s[..m], needle, i) <==> OccursAt(s, needle, i) && i + |needle| <= m
  {
    if 0 <= i && i + |needle| <= m {
      assert s[..m][i..i + |needle|] == s[i..i + |needle|];
    }
  }

  /**
    The part of a slug longer than `maxLen` that `ApplyTruncationIntended`
    searches: every occurrence of a non-empty separator that starts before
    `maxLen`, even when it reaches past it.
   */
  function IntendedWindowEnd(slug: string, sep: string, maxLen: nat): (end: nat)
    requires maxLen < |slug| && |sep| > 0
    ensures maxLen <= end <= |slug|
    ensures forall i :: OccursAt(slug[..end], sep, i) <==> i < maxLen && OccursAt(slug, sep, i)
  {
    var end := if maxLen + |sep| - 1 <= |slug| then maxLen + |sep| - 1 else |slug|;
    assert forall i :: OccursAt(slug[..end], sep, i) <==> i < maxLen && OccursAt(slug, sep, i) by {
      forall i ensures OccursAt(slug[..end], sep, i) <==> i < maxLen && OccursAt(slug, sep, i) {
        OccursInPrefix(slug, sep, end, i);
      }
    }
    end
  }

  /**
    The cut that the documentation of `Slugifier::truncate` describes (src/lib.rs:114-116):
    before the last separator occurrence that starts inside the first
    `max_len` characters, even one that reaches past them, and a hard cut to
    `max_len` characters only when no occurrence starts there. With a
    one-character separator this is `ApplyTruncation` exactly.
   */
  function ApplyTruncationIntended(cfg: Slugifier, slug: string): (r: string)
    requires cfg.truncate.Some? ==> IsAsciiString(cfg.separator) && IsAsciiString(slug)
    ensures r <= slug
    ensures cfg.truncate.None? || |slug| <= cfg.truncate.value ==> r == slug
    ensures cfg.truncate.Some? ==> |r| <= cfg.truncate.value
    ensures cfg.truncate.Some? && |slug| > cfg.truncate.value ==>
              var maxLen := cfg.truncate.value;
              if |cfg.separator| > 0 && exists i :: i < maxLen && OccursAt(slug, cfg.separator, i) then
                && |r| < maxLen
                && OccursAt(slug, cfg.separator, |r|)
                && forall j :: |r| < j < maxLen ==> !OccursAt(slug, cfg.separator, j)
              else
                r == slug[..maxLen]
  {
    match cfg.truncate
    case None => slug
    case Some(maxLen) =>
      if |slug| <= maxLen || |cfg.separator| == 0 then ApplyTruncation(cfg, slug)
      else
        var found := RFind(slug[..IntendedWindowEnd(slug, cfg.separator, maxLen)], cfg.separator);
        if found.Some? then slug[..found.value] else slug[..maxLen]
  }

  /** With a one-character separator the intended cut is the cut of the source. */
  lemma {:induction false} IntendedAgreesOnOneCharSeparator(cfg: Slugifier, slug: string)
    requires cfg.truncate.Some? ==> IsAsciiString(cfg.separator) && IsAsciiString(slug)
    requires |cfg.separator| == 1
    ensures ApplyTruncationIntended(cfg, slug) == ApplyTruncation(cfg, slug)
  {
    if cfg.truncate.Some? && |slug| > cfg.truncate.value {
      var maxLen := cfg.truncate.value;
      assert IntendedWindowEnd(slug, cfg.separator, maxLen) == maxLen;
    }
  }
}
