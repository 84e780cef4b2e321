/**
  Properties of the untruncated slug scan: the words are exactly the
  alphanumeric bytes of the input, the slug carries exactly those bytes
  (case-mapped) in order, and scanning a slug again gives it back.
 */
module SlugLaws {
  import opened Ascii
  import opened Config
  import opened Slug

  /** The alphanumeric bytes of `text`, in order. */
  function Alphanumerics(text: seq<byte>): seq<byte>
    decreases |text|
  {
    if |text| == 0 then []
    else
      var last := text[|text| - 1];
      Alphanumerics(text[..|text| - 1]) + (if IsAlphanumeric(last) then [last] else [])
  }

  /** The alphanumeric characters of `s`, in order. */
  function AlphanumericChars(s: string): string
    decreases |s|
  {
    if |s| == 0 then []
    else
      var last := s[|s| - 1];
      AlphanumericChars(s[..|s| - 1]) + (if IsAlphanumericChar(last) then [last] else [])
  }

  lemma {:induction false} AlphanumericsAppend(a: seq<byte>, b: seq<byte>)
    ensures Alphanumerics(a + b) == Alphanumerics(a) + Alphanumerics(b)
    decreases |b|
  {
    if b == [] {
      assert a + b == a;
    } else {
      assert (a + b)[..|a + b| - 1] == a + b[..|b| - 1];
      AlphanumericsAppend(a, b[..|b| - 1]);
    }
  }

  lemma {:induction false} AlphanumericCharsAppend(a: string, b: string)
    ensures AlphanumericChars(a + b) == AlphanumericChars(a) + AlphanumericChars(b)
    decreases |b|
  {
    if b == [] {
      assert a + b == a;
    } else {
      assert (a + b)[..|a + b| - 1] == a + b[..|b| - 1];
      AlphanumericCharsAppend(a, b[..|b| - 1]);
    }
  }

  lemma {:induction false} AlphanumericCharsNone(s: string)
    requires NoAlphanumericChar(s)
    ensures AlphanumericChars(s) == []
    decreases |s|
  {
    if s != [] {
      AlphanumericCharsNone(s[..|s| - 1]);
    }
  }

  lemma {:induction false} AlphanumericsOfWord(w: seq<byte>)
    requires forall i :: 0 <= i < |w| ==> IsAlphanumeric(w[i])
    ensures Alphanumerics(w) == w
    decreases |w|
  {
    if w != [] {
      AlphanumericsOfWord(w[..|w| - 1]);
    }
  }

  /**
    The words cover the input's alphanumeric bytes: concatenated, they are
    exactly those bytes, in order, none lost and none added.
   */
  lemma {:induction false} WordsCoverAlphanumerics(text: seq<byte>)
    ensures Join(Words(text), []) == Alphanumerics(text)
    decreases |text|
  {
    if |text| > 0 {
      var n := |text|;
      if !IsAlphanumeric(text[n - 1]) {
        WordsCoverAlphanumerics(text[..n - 1]);
      } else {
        var k := AlnumSuffixStart(text);
        var front, w := text[..k], text[k..];
        WordsCoverAlphanumerics(front);
        JoinSnoc(Words(front), w, []);
        assert text == front + w;
        AlphanumericsAppend(front, w);
        AlphanumericsOfWord(w);
      }
    }
  }

  /**
    Case mapping: when the separator holds no alphanumeric character, the
    alphanumeric characters of the slug are exactly the input's alphanumeric
    bytes, in order, each lower-cased when `to_lowercase` is set and unchanged
    otherwise.
   */
  lemma SlugAlphanumericContent(cfg: Slugifier, text: seq<byte>)
    requires NoAlphanumericChar(cfg.separator)
    ensures AlphanumericChars(Scan(cfg, text)) == EmitWord(cfg.toLowercase, Alphanumerics(text))
  {
    RunAlphanumericContent(cfg, text);
  }

  lemma {:induction false} RunAlphanumericContent(cfg: Slugifier, text: seq<byte>)
    requires NoAlphanumericChar(cfg.separator)
    ensures AlphanumericChars(Run(cfg, text).slug) == EmitWord(cfg.toLowercase, Alphanumerics(text))
    decreases |text|
  {
    if |text| > 0 {
      var n := |text|;
      var p, c := text[..n - 1], text[n - 1];
      RunAlphanumericContent(cfg, p);
      if IsAlphanumeric(c) {
        StepAlphanumericContent(cfg, Run(cfg, p), c);
        assert Alphanumerics(text) == Alphanumerics(p) + [c];
        EmitWordSnoc(cfg.toLowercase, Alphanumerics(p), c);
      }
    }
  }

  /** The loop body on an alphanumeric byte adds exactly one alphanumeric character: the byte's emission. */
  lemma StepAlphanumericContent(cfg: Slugifier, st: ScanState, c: byte)
    requires NoAlphanumericChar(cfg.separator) && IsAlphanumeric(c)
    ensures AlphanumericChars(Step(cfg, st, c).slug) == AlphanumericChars(st.slug) + [EmitByte(cfg.toLowercase, c)]
  {
    var e := EmitByte(cfg.toLowercase, c);
    EmitIsAlphanumeric(cfg.toLowercase, c);
    var s := if st.foundSep && |st.slug| > 0 then st.slug + cfg.separator else st.slug;
    assert Step(cfg, st, c).slug == s + [e];
    AlphanumericCharsAppend(s, [e]);
    assert AlphanumericChars([e]) == [e];
    if st.foundSep && |st.slug| > 0 {
      SeparatorAddsNoAlphanumerics(st.slug, cfg.separator);
    }
  }

  lemma SeparatorAddsNoAlphanumerics(s: string, sep: string)
    requires NoAlphanumericChar(sep)
    ensures AlphanumericChars(s + sep) == AlphanumericChars(s)
  {
    AlphanumericCharsAppend(s, sep);
    AlphanumericCharsNone(sep);
  }

  lemma EmitWordSnoc(lower: bool, w: seq<byte>, c: byte)
    ensures EmitWord(lower, w + [c]) == EmitWord(lower, w) + [EmitByte(lower, c)]
  {
  }

  // ---------------------------------------------------------------------------
  // Slugs are fixed points of the scan
  // ---------------------------------------------------------------------------

  lemma {:induction false} WordsIgnoreTrailingBoundary(x: seq<byte>, s: seq<byte>)
    requires NoAlphanumeric(s)
    ensures Words(x + s) == Words(x)
    decreases |s|
  {
    if s == [] {
      assert x + s == x;
    } else {
      assert (x + s)[..|x + s| - 1] == x + s[..|s| - 1];
      WordsIgnoreTrailingBoundary(x, s[..|s| - 1]);
    }
  }

  lemma {:induction false} SuffixStartAfterBoundary(x: seq<byte>, w: seq<byte>)
    requires x == [] || !IsAlphanumeric(x[|x| - 1])
    requires forall i :: 0 <= i < |w| ==> IsAlphanumeric(w[i])
    ensures AlnumSuffixStart(x + w) == |x|
    decreases |w|
  {
    if w == [] {
      assert x + w == x;
    } else {
      assert (x + w)[..|x + w| - 1] == x + w[..|w| - 1];
      SuffixStartAfterBoundary(x, w[..|w| - 1]);
    }
  }

  /**
    Words joined by a non-empty separator without alphanumeric bytes split
    back into the same words.
   */
  lemma {:induction false} WordsOfJoin(ws: seq<seq<byte>>, sep: seq<byte>)
    requires forall j :: 0 <= j < |ws| ==> IsWord(ws[j])
    requires |sep| > 0 && NoAlphanumeric(sep)
    ensures Words(Join(ws, sep)) == ws
    decreases |ws|
  {
    if ws != [] {
      var n := |ws|;
      var w := ws[n - 1];
      var init := ws[..n - 1];
      assert IsWord(w);
      if n == 1 {
        WordsOfOneWord(w, sep);
      } else {
        WordsOfJoin(init, sep);
        WordsOfJoinSnoc(init, w, sep);
        assert init + [w] == ws;
      }
    }
  }

  lemma WordsOfOneWord(w: seq<byte>, sep: seq<byte>)
    requires IsWord(w)
    ensures Words(Join([w], sep)) == [w]
  {
    WordsSnocWord([], w);
    assert [] + w == w;
  }

  /** One more word, joined on after the separator, splits off as one more word. */
  lemma WordsOfJoinSnoc(init: seq<seq<byte>>, w: seq<byte>, sep: seq<byte>)
    requires init != [] && Words(Join(init, sep)) == init
    requires IsWord(w) && |sep| > 0 && NoAlphanumeric(sep)
    ensures Words(Join(init + [w], sep)) == init + [w]
  {
    var x := Join(init, sep) + sep;
    JoinSnoc(init, w, sep);
    WordsSnocWord(x, w);
    WordsIgnoreTrailingBoundary(Join(init, sep), sep);
  }

  /** A word placed after a boundary (or at the start) is one more word. */
  lemma WordsSnocWord(x: seq<byte>, w: seq<byte>)
    requires x == [] || !IsAlphanumeric(x[|x| - 1])
    requires IsWord(w)
    ensures Words(x + w) == Words(x) + [w]
  {
    SuffixStartAfterBoundary(x, w);
    assert (x + w)[..|x|] == x && (x + w)[|x|..] == w;
  }

  /** The bytes of each of some ASCII strings. */
  function BytesOfParts(parts: seq<string>): (bs: seq<seq<byte>>)
    requires forall i :: 0 <= i < |parts| ==> IsAsciiString(parts[i])
    ensures |bs| == |parts|
  {
    seq(|parts|, i requires 0 <= i < |parts| && IsAsciiString(parts[i]) => Bytes(parts[i]))
  }

  lemma {:induction false} BytesOfJoin(parts: seq<string>, sep: string)
    requires forall i :: 0 <= i < |parts| ==> IsAsciiString(parts[i])
    requires IsAsciiString(sep)
    ensures IsAsciiString(Join(parts, sep))
    ensures Bytes(Join(parts, sep)) == Join(BytesOfParts(parts), Bytes(sep))
    decreases |parts|
  {
    var n := |parts|;
    if n == 1 {
    } else if n > 1 {
      var init := parts[..n - 1];
      BytesOfJoin(init, sep);
      BytesAppend(Join(init, sep), sep);
      BytesAppend(Join(init, sep) + sep, parts[n - 1]);
      assert BytesOfParts(parts)[..n - 1] == BytesOfParts(init);
    }
  }

  /** A case-mapped word, read back as bytes, is a word that case-maps to itself. */
  lemma EmitWordFixedPoint(lower: bool, w: seq<byte>)
    requires IsWord(w)
    ensures IsAsciiString(EmitWord(lower, w))
    ensures IsWord(Bytes(EmitWord(lower, w)))
    ensures EmitWord(lower, Bytes(EmitWord(lower, w))) == EmitWord(lower, w)
  {
    var e := EmitWord(lower, w);
    forall i | 0 <= i < |w| ensures IsAlphanumericChar(e[i]) {
      EmitIsAlphanumeric(lower, w[i]);
    }
    var b := Bytes(e);
    forall i | 0 <= i < |w| ensures IsAlphanumeric(b[i]) && EmitByte(lower, b[i]) == e[i] {
      assert b[i] == ToByte(e[i]);
    }
  }

  /**
    A rendering of words is a fixed point of the scan: when the separator is
    non-empty ASCII without alphanumeric characters, scanning the bytes of
    the rendering with the same configuration returns it unchanged.
   */
  lemma {:induction false} RenderIsFixedPoint(cfg: Slugifier, ws: seq<seq<byte>>)
    requires forall j :: 0 <= j < |ws| ==> IsWord(ws[j])
    requires IsAsciiString(cfg.separator) && |cfg.separator| > 0
    requires NoAlphanumericChar(cfg.separator)
    ensures IsAsciiString(Render(cfg, ws))
    ensures Scan(cfg, Bytes(Render(cfg, ws))) == Render(cfg, ws)
  {
    var lower := cfg.toLowercase;
    var parts := EmitWords(lower, ws);
    forall i | 0 <= i < |parts| ensures IsAsciiString(parts[i]) && IsWord(Bytes(parts[i])) {
      EmitWordFixedPoint(lower, ws[i]);
    }
    var sep := Bytes(cfg.separator);
    forall i | 0 <= i < |sep| ensures !IsAlphanumeric(sep[i]) {
      assert sep[i] == ToByte(cfg.separator[i]);
    }
    BytesOfJoin(parts, cfg.separator);
    var bws := BytesOfParts(parts);
    WordsOfJoin(bws, sep);
    assert Words(Bytes(Render(cfg, ws))) == bws;
    forall i | 0 <= i < |ws| ensures EmitWord(lower, bws[i]) == parts[i] {
      EmitWordFixedPoint(lower, ws[i]);
    }
    assert EmitWords(lower, bws) == parts;
  }

  /**
    Slugs are fixed points: when the separator is non-empty ASCII without
    alphanumeric characters, scanning a slug with the same configuration
    returns it unchanged.
   */
  lemma {:induction false} ScanIdempotent(cfg: Slugifier, text: seq<byte>)
    requires IsAsciiString(cfg.separator) && |cfg.separator| > 0
    requires NoAlphanumericChar(cfg.separator)
    ensures IsAsciiString(Scan(cfg, text))
    ensures Scan(cfg, Bytes(Scan(cfg, text))) == Scan(cfg, text)
  {
    RenderIsFixedPoint(cfg, Words(text));
  }
}
