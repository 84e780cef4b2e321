/**
  The unit tests of src/lib.rs, stated as facts about the model: each slug
  or file name is derived from the reference descriptions, one small step
  per lemma.
 */
module Examples {
  import opened Ascii
  import opened Config
  import opened Slug
  import opened SlugLaws
  import opened Truncation
  import opened Rslug
  import opened Sanitize

  /** Words after leading text without alphanumeric bytes, joined by a non-empty such separator, split back into those words. */
  lemma {:induction false} WordsAfterLead(lead: seq<byte>, ws: seq<seq<byte>>, sep: seq<byte>)
    requires forall j :: 0 <= j < |ws| ==> IsWord(ws[j])
    requires |sep| > 0 && NoAlphanumeric(sep) && NoAlphanumeric(lead)
    ensures Words(lead + Join(ws, sep)) == ws
    decreases |ws|
  {
    var n := |ws|;
    if n == 0 {
      assert lead + Join(ws, sep) == lead;
    } else {
      var init, w := ws[..n - 1], ws[n - 1];
      assert init + [w] == ws;
      JoinSnoc(init, w, sep);
      if n == 1 {
        WordsSnocWord(lead, w);
      } else {
        var x := lead + Join(init, sep) + sep;
        assert lead + Join(ws, sep) == x + w;
        assert x[|x| - 1] == sep[|sep| - 1];
        WordsSnocWord(x, w);
        WordsIgnoreTrailingBoundary(lead + Join(init, sep), sep);
        WordsAfterLead(lead, init, sep);
      }
    }
  }

  /**
    Words between leading and trailing text without alphanumeric bytes,
    joined by a non-empty such separator, split back into exactly those words.
   */
  lemma {:induction false} WordsOfSentence(lead: seq<byte>, ws: seq<seq<byte>>, sep: seq<byte>, tail: seq<byte>)
    requires forall j :: 0 <= j < |ws| ==> IsWord(ws[j])
    requires |sep| > 0 && NoAlphanumeric(sep) && NoAlphanumeric(lead) && NoAlphanumeric(tail)
    ensures Words(lead + Join(ws, sep) + tail) == ws
  {
    WordsIgnoreTrailingBoundary(lead + Join(ws, sep), tail);
    WordsAfterLead(lead, ws, sep);
  }

  /** `[0-9A-Za-z]` on characters, the form in which literal text is checked cheaply. */
  predicate IsLiteralAlnum(c: char) {
    ('0' <= c <= '9') || ('A' <= c <= 'Z') || ('a' <= c <= 'z')
  }

  lemma LiteralAlnum(c: char)
    ensures IsLiteralAlnum(c) <==> IsAlphanumericChar(c)
  {
    if IsAsciiChar(c) {
      assert ToByte(c) as int == c as int;
    }
  }

  /** Non-empty text of ASCII alphanumeric characters only. */
  predicate IsAsciiWord(s: string) {
    |s| > 0 && forall c :: c in s ==> IsLiteralAlnum(c)
  }

  /** ASCII text without alphanumeric characters. */
  predicate IsAsciiGap(s: string) {
    forall c :: c in s ==> c as int < 128 && !IsLiteralAlnum(c)
  }

  lemma {:induction false} AsciiWordBytes(s: string)
    requires IsAsciiWord(s)
    ensures IsAsciiString(s) && IsWord(Bytes(s))
  {
    forall i | 0 <= i < |s| ensures IsAlphanumericChar(s[i]) {
      assert s[i] in s;
      LiteralAlnum(s[i]);
    }
    assert IsAsciiString(s);
    forall i | 0 <= i < |s| ensures IsAlphanumeric(Bytes(s)[i]) {
      assert Bytes(s)[i] == ToByte(s[i]);
    }
  }

  lemma {:induction false} AsciiGapBytes(s: string)
    requires IsAsciiGap(s)
    ensures IsAsciiString(s) && NoAlphanumeric(Bytes(s))
  {
    forall i | 0 <= i < |s| ensures IsAsciiChar(s[i]) && !IsAlphanumericChar(s[i]) {
      assert s[i] in s;
      LiteralAlnum(s[i]);
    }
    assert IsAsciiString(s);
    forall i | 0 <= i < |s| ensures !IsAlphanumeric(Bytes(s)[i]) {
      assert Bytes(s)[i] == ToByte(s[i]);
    }
  }

  /** `WordsOfSentence` for ASCII text of two words: `a`, a gap, `b` and a tail split into `a` and `b`. */
  lemma {:induction false} TwoWords(whole: string, a: string, gap: string, b: string, tail: string)
    requires IsAsciiWord(a) && IsAsciiWord(b)
    requires |gap| > 0 && IsAsciiGap(gap) && IsAsciiGap(tail)
    requires whole == a + gap + b + tail
    ensures IsAsciiString(whole) && IsAsciiString(a) && IsAsciiString(b)
    ensures Words(Bytes(whole)) == [Bytes(a), Bytes(b)]
  {
    AsciiWordBytes(a);
    AsciiWordBytes(b);
    AsciiGapBytes(gap);
    AsciiGapBytes(tail);
    BytesAppend(a, gap);
    BytesAppend(a + gap, b);
    BytesAppend(a + gap + b, tail);
    var ws := [Bytes(a), Bytes(b)];
    assert Join(ws, Bytes(gap)) == Bytes(a) + Bytes(gap) + Bytes(b);
    assert [] + Join(ws, Bytes(gap)) + Bytes(tail) == Bytes(whole);
    WordsOfSentence([], ws, Bytes(gap), Bytes(tail));
  }

  /** `WordsOfSentence` for ASCII text of three words between a lead and a tail. */
  lemma {:induction false} ThreeWords(whole: string, lead: string, a: string, gap: string, b: string, c: string, tail: string)
    requires IsAsciiWord(a) && IsAsciiWord(b) && IsAsciiWord(c)
    requires |gap| > 0 && IsAsciiGap(gap) && IsAsciiGap(lead) && IsAsciiGap(tail)
    requires whole == lead + (a + gap + b + gap + c) + tail
    ensures IsAsciiString(whole) && IsAsciiString(a) && IsAsciiString(b) && IsAsciiString(c)
    ensures Words(Bytes(whole)) == [Bytes(a), Bytes(b), Bytes(c)]
  {
    AsciiWordBytes(a);
    AsciiWordBytes(b);
    AsciiWordBytes(c);
    AsciiGapBytes(gap);
    AsciiGapBytes(lead);
    AsciiGapBytes(tail);
    var ws := [Bytes(a), Bytes(b), Bytes(c)];
    ThreeWordsBytes(lead, a, gap, b, c, tail);
    WordsOfSentence(Bytes(lead), ws, Bytes(gap), Bytes(tail));
  }

  /** The bytes of `lead`, three parts joined by `gap`, and `tail`. */
  lemma {:induction false} ThreeWordsBytes(lead: string, a: string, gap: string, b: string, c: string, tail: string)
    requires IsAsciiString(lead) && IsAsciiString(a) && IsAsciiString(gap)
    requires IsAsciiString(b) && IsAsciiString(c) && IsAsciiString(tail)
    ensures IsAsciiString(lead + (a + gap + b + gap + c) + tail)
    ensures Bytes(lead + (a + gap + b + gap + c) + tail)
         == Bytes(lead) + Join([Bytes(a), Bytes(b), Bytes(c)], Bytes(gap)) + Bytes(tail)
  {
    var parts := [a, b, c];
    JoinOfThree(a, b, c, gap);
    BytesOfJoin(parts, gap);
    assert BytesOfParts(parts) == [Bytes(a), Bytes(b), Bytes(c)];
    BytesAppend(lead, Join(parts, gap));
    BytesAppend(lead + Join(parts, gap), tail);
  }

  lemma {:induction false} JoinOfThree<T>(a: seq<T>, b: seq<T>, c: seq<T>, gap: seq<T>)
    ensures Join([a, b, c], gap) == a + gap + b + gap + c
  {
    JoinSnoc([a], b, gap);
    assert [a] + [b] == [a, b];
    JoinSnoc([a, b], c, gap);
    assert [a, b] + [c] == [a, b, c];
  }

  // ---------------------------------------------------------------------------
  // `slugify_ascii` with the default configuration: "Hello, World!"
  // ---------------------------------------------------------------------------

  lemma HelloWorldWords()
    ensures Words(Bytes("Hello, World!")) == [Bytes("Hello"), Bytes("World")]
  {
    assert IsAsciiWord("Hello") && IsAsciiWord("World");
    assert IsAsciiGap(", ") && IsAsciiGap("!");
    assert "Hello, World!" == "Hello" + ", " + "World" + "!";
    TwoWords("Hello, World!", "Hello", ", ", "World", "!");
  }

  lemma HelloWorldRender()
    ensures Render(Default(), [Bytes("Hello"), Bytes("World")]) == "hello-world"
  {
    var ws := [Bytes("Hello"), Bytes("World")];
    assert EmitWord(true, ws[0]) == "hello";
    assert EmitWord(true, ws[1]) == "world";
    assert EmitWords(true, ws) == ["hello", "world"];
    assert ["hello", "world"][..1] == ["hello"];
  }

  /** Punctuation disappears, words are lower-cased and joined by `-`. */
  lemma HelloWorld()
    ensures SlugifyAscii(Default(), Bytes("Hello, World!")) == "hello-world"
  {
    HelloWorldWords();
    HelloWorldRender();
  }

  lemma HelloSpaceWorldWords()
    ensures Words(Bytes("Hello World")) == [Bytes("Hello"), Bytes("World")]
  {
    assert IsAsciiWord("Hello") && IsAsciiWord("World");
    assert IsAsciiGap(" ") && IsAsciiGap("");
    assert "Hello World" == "Hello" + " " + "World" + "";
    TwoWords("Hello World", "Hello", " ", "World", "");
  }

  /** The `slugify!` macro on `Hello World`, for a transliteration that leaves ASCII text alone. */
  lemma BasicSlug(translit: Transliteration)
    requires translit("Hello World") == "Hello World"
    ensures SlugifyDefault(translit, "Hello World") == "hello-world"
  {
    HelloSpaceWorldWords();
    HelloWorldRender();
  }

  // ---------------------------------------------------------------------------
  // Both macros on "--leading and trailing--"
  // ---------------------------------------------------------------------------

  lemma LeadingAndTrailingWords()
    ensures Words(Bytes("--leading and trailing--")) == [Bytes("leading"), Bytes("and"), Bytes("trailing")]
  {
    assert IsAsciiWord("leading") && IsAsciiWord("and") && IsAsciiWord("trailing");
    assert IsAsciiGap(" ") && IsAsciiGap("--");
    assert "--leading and trailing--" == "--" + ("leading" + " " + "and" + " " + "trailing") + "--";
    ThreeWords("--leading and trailing--", "--", "leading", " ", "and", "trailing", "--");
  }

  /** Three words render as their case-mapped forms with a separator between neighbours. */
  lemma {:induction false} RenderOfThree(cfg: Slugifier, a: seq<byte>, b: seq<byte>, c: seq<byte>)
    ensures var lower := cfg.toLowercase;
            Render(cfg, [a, b, c])
            == EmitWord(lower, a) + cfg.separator + EmitWord(lower, b) + cfg.separator + EmitWord(lower, c)
  {
    var lower := cfg.toLowercase;
    assert EmitWords(lower, [a, b, c]) == [EmitWord(lower, a), EmitWord(lower, b), EmitWord(lower, c)];
    JoinOfThree(EmitWord(lower, a), EmitWord(lower, b), EmitWord(lower, c), cfg.separator);
  }

  lemma LeadingAndTrailingEmitted()
    ensures EmitWord(true, Bytes("leading")) == "leading"
    ensures EmitWord(true, Bytes("and")) == "and"
    ensures EmitWord(true, Bytes("trailing")) == "trailing"
  {
  }

  lemma LeadingAndTrailingRender()
    ensures Render(Default(), [Bytes("leading"), Bytes("and"), Bytes("trailing")]) == "leading-and-trailing"
  {
    RenderOfThree(Default(), Bytes("leading"), Bytes("and"), Bytes("trailing"));
    LeadingAndTrailingEmitted();
    assert "leading" + "-" + "and" + "-" + "trailing" == "leading-and-trailing";
  }

  /**
    Separator characters at either end of the text leave no separator at
    either end of the slug, with `slugify!` (for a transliteration that leaves
    ASCII text alone) and with `slugify_ascii!` alike.
   */
  lemma LeadingAndTrailing(translit: Transliteration)
    requires translit("--leading and trailing--") == "--leading and trailing--"
    ensures SlugifyDefault(translit, "--leading and trailing--") == "leading-and-trailing"
    ensures SlugifyAsciiDefault(Bytes("--leading and trailing--")) == "leading-and-trailing"
  {
    LeadingAndTrailingWords();
    LeadingAndTrailingRender();
  }

  // ---------------------------------------------------------------------------
  // `slugify_ascii` without lower-casing: "Keep-Case"
  // ---------------------------------------------------------------------------

  lemma KeepCaseWords()
    ensures Words(Bytes("Keep-Case")) == [Bytes("Keep"), Bytes("Case")]
  {
    assert IsAsciiWord("Keep") && IsAsciiWord("Case");
    assert IsAsciiGap("-") && IsAsciiGap("");
    assert "Keep-Case" == "Keep" + "-" + "Case" + "";
    TwoWords("Keep-Case", "Keep", "-", "Case", "");
  }

  lemma KeepCaseRender()
    ensures Render(WithLowercase(Default(), false), [Bytes("Keep"), Bytes("Case")]) == "Keep-Case"
  {
    var ws := [Bytes("Keep"), Bytes("Case")];
    assert EmitWord(false, ws[0]) == "Keep";
    assert EmitWord(false, ws[1]) == "Case";
    assert EmitWords(false, ws) == ["Keep", "Case"];
    assert ["Keep", "Case"][..1] == ["Keep"];
  }

  /** With `to_lowercase(false)` the letters keep their case. */
  lemma KeepCase()
    ensures SlugifyAscii(WithLowercase(Default(), false), Bytes("Keep-Case")) == "Keep-Case"
  {
    KeepCaseWords();
    KeepCaseRender();
  }

  // ---------------------------------------------------------------------------
  // `slugify` with the default configuration: "你好世界 & Rust"
  // ---------------------------------------------------------------------------

  lemma PinyinWords()
    ensures Words(Bytes("NiHaoShiJie & Rust")) == [Bytes("NiHaoShiJie"), Bytes("Rust")]
  {
    assert IsAsciiWord("NiHaoShiJie") && IsAsciiWord("Rust");
    assert IsAsciiGap(" & ") && IsAsciiGap("");
    assert "NiHaoShiJie & Rust" == "NiHaoShiJie" + " & " + "Rust" + "";
    TwoWords("NiHaoShiJie & Rust", "NiHaoShiJie", " & ", "Rust", "");
  }

  lemma PinyinRender()
    ensures Render(Default(), [Bytes("NiHaoShiJie"), Bytes("Rust")]) == "nihaoshijie-rust"
  {
    var ws := [Bytes("NiHaoShiJie"), Bytes("Rust")];
    assert EmitWord(true, ws[0]) == "nihaoshijie";
    assert EmitWord(true, ws[1]) == "rust";
    assert EmitWords(true, ws) == ["nihaoshijie", "rust"];
    assert ["nihaoshijie", "rust"][..1] == ["nihaoshijie"];
  }

  /**
    The Chinese text reaches the scan only through the transliteration: for
    one that romanises it as `NiHaoShiJie & Rust`, the words are lower-cased
    and joined into `nihaoshijie-rust`.
   */
  lemma ChineseText(translit: Transliteration)
    requires translit("你好世界 & Rust") == "NiHaoShiJie & Rust"
    ensures SlugifyDefault(translit, "你好世界 & Rust") == "nihaoshijie-rust"
  {
    PinyinWords();
    PinyinRender();
  }

  // ---------------------------------------------------------------------------
  // `slugify` on ASCII text: "multiple---hyphens" and ""
  // ---------------------------------------------------------------------------

  lemma HyphensWords()
    ensures Words(Bytes("multiple---hyphens")) == [Bytes("multiple"), Bytes("hyphens")]
  {
    assert IsAsciiWord("multiple") && IsAsciiWord("hyphens");
    assert IsAsciiGap("---") && IsAsciiGap("");
    assert "multiple---hyphens" == "multiple" + "---" + "hyphens" + "";
    TwoWords("multiple---hyphens", "multiple", "---", "hyphens", "");
  }

  lemma HyphensRender()
    ensures Render(Default(), [Bytes("multiple"), Bytes("hyphens")]) == "multiple-hyphens"
  {
    var ws := [Bytes("multiple"), Bytes("hyphens")];
    assert EmitWord(true, ws[0]) == "multiple";
    assert EmitWord(true, ws[1]) == "hyphens";
    assert EmitWords(true, ws) == ["multiple", "hyphens"];
    assert ["multiple", "hyphens"][..1] == ["multiple"];
  }

  /**
    A run of separator characters in the input collapses into one separator,
    for a transliteration that leaves this ASCII text alone (as `any_ascii`
    does).
   */
  lemma MultipleHyphens(translit: Transliteration)
    requires translit("multiple---hyphens") == "multiple---hyphens"
    ensures SlugifyDefault(translit, "multiple---hyphens") == "multiple-hyphens"
  {
    HyphensWords();
    HyphensRender();
  }

  /** The empty text gives the empty slug, for a transliteration that maps it to itself. */
  lemma EmptyText(translit: Transliteration)
    requires translit("") == ""
    ensures SlugifyDefault(translit, "") == ""
  {
    assert Bytes("") == [];
  }

  // ---------------------------------------------------------------------------
  // `slugify` with a custom separator and without lower-casing
  // ---------------------------------------------------------------------------

  lemma CustomSeparatorWords()
    ensures Words(Bytes("custom separator")) == [Bytes("custom"), Bytes("separator")]
  {
    assert IsAsciiWord("custom") && IsAsciiWord("separator");
    assert IsAsciiGap(" ") && IsAsciiGap("");
    assert "custom separator" == "custom" + " " + "separator" + "";
    TwoWords("custom separator", "custom", " ", "separator", "");
  }

  lemma CustomSeparatorRender()
    ensures Render(WithSeparator(Default(), "_"), [Bytes("custom"), Bytes("separator")]) == "custom_separator"
  {
    assert WithSeparator(Default(), "_") == Slugifier("_", true, None, "");
    var ws := [Bytes("custom"), Bytes("separator")];
    assert EmitWord(true, ws[0]) == "custom";
    assert EmitWord(true, ws[1]) == "separator";
    assert EmitWords(true, ws) == ["custom", "separator"];
    assert ["custom", "separator"][..1] == ["custom"];
  }

  /** With separator `_` the words are joined by `_`, for a transliteration that leaves ASCII text alone. */
  lemma CustomSeparator(translit: Transliteration)
    requires translit("custom separator") == "custom separator"
    ensures Slugify(WithSeparator(Default(), "_"), translit, "custom separator") == "custom_separator"
  {
    CustomSeparatorWords();
    CustomSeparatorRender();
  }

  lemma NoLowercaseWords()
    ensures Words(Bytes("No Lowercase")) == [Bytes("No"), Bytes("Lowercase")]
  {
    assert IsAsciiWord("No") && IsAsciiWord("Lowercase");
    assert IsAsciiGap(" ") && IsAsciiGap("");
    assert "No Lowercase" == "No" + " " + "Lowercase" + "";
    TwoWords("No Lowercase", "No", " ", "Lowercase", "");
  }

  lemma NoLowercaseRender()
    ensures Render(WithLowercase(Default(), false), [Bytes("No"), Bytes("Lowercase")]) == "No-Lowercase"
  {
    assert WithLowercase(Default(), false) == Slugifier("-", false, None, "");
    var ws := [Bytes("No"), Bytes("Lowercase")];
    assert EmitWord(false, ws[0]) == "No";
    assert EmitWord(false, ws[1]) == "Lowercase";
    assert EmitWords(false, ws) == ["No", "Lowercase"];
    assert ["No", "Lowercase"][..1] == ["No"];
  }

  /** With `to_lowercase(false)` `slugify` keeps the capitals, for a transliteration that leaves ASCII text alone. */
  lemma NoLowercase(translit: Transliteration)
    requires translit("No Lowercase") == "No Lowercase"
    ensures Slugify(WithLowercase(Default(), false), translit, "No Lowercase") == "No-Lowercase"
  {
    NoLowercaseWords();
    NoLowercaseRender();
  }

  // ---------------------------------------------------------------------------
  // Truncation, on "Hello, World!" (slug "hello-world", 11 characters)
  // ---------------------------------------------------------------------------

  /** Limit 8: the window `hello-wo` holds a `-`, so the cut drops it and everything after. */
  lemma CutAtSeparator()
    ensures SlugifyAscii(WithTruncate(Default(), 8), Bytes("Hello, World!")) == "hello"
  {
    HelloWorldWords();
    HelloWorldRender();
    var slug := "hello-world";
    assert slug[..8] == "hello-wo";
    LastDashInWindow();
    assert slug[..5] == "hello";
  }

  /** In the window `hello-wo` the last `-` is at index 5. */
  lemma LastDashInWindow()
    ensures OccursAt("hello-wo", "-", 5)
    ensures forall j :: 5 < j ==> !OccursAt("hello-wo", "-", j)
  {
    var window := "hello-wo";
    assert window[5..6] == "-";
    forall j | 5 < j ensures !OccursAt(window, "-", j) {
      if j < 8 {
        assert window[j..j + 1] == [window[j]];
      }
    }
  }

  /** Limit 4: the window `hell` holds no `-`, so the slug is cut to exactly 4 characters. */
  lemma HardCut()
    ensures SlugifyAscii(WithTruncate(Default(), 4), Bytes("Hello, World!")) == "hell"
  {
    HelloWorldWords();
    HelloWorldRender();
    var window := "hello-world"[..4];
    assert window == "hell";
    forall j ensures !OccursAt(window, "-", j) {
      if 0 <= j < 4 {
        assert window[j..j + 1] == [window[j]];
      }
    }
  }

  // ---------------------------------------------------------------------------
  // `sanitize_filename`
  // ---------------------------------------------------------------------------

  /** What `char::is_whitespace` says of printable ASCII: the space is whitespace, `!` to `~` are not. */
  predicate AsciiWhitespace(isWs: WhitespaceClass) {
    isWs(' ') && forall c: char :: '!' <= c <= '~' ==> !isWs(c)
  }

  /** Printable ASCII text without illegal characters. */
  predicate Plain(p: string) {
    |p| > 0 && forall i :: 0 <= i < |p| ==> '!' <= p[i] <= '~' && !IsIllegal(p[i])
  }

  /** A run of spaces and illegal characters. */
  predicate RunOfBoundaries(r: string) {
    |r| > 0 && forall i :: 0 <= i < |r| ==> r[i] == ' ' || IsIllegal(r[i])
  }

  /** Plain text passes the scan unchanged. */
  lemma {:induction false} PlainPiece(cfg: Slugifier, isWs: WhitespaceClass, p: string)
    requires AsciiWhitespace(isWs) && Plain(p)
    ensures !IsBoundary(isWs, p[0]) && !IsBoundary(isWs, p[|p| - 1])
    ensures CollapseRuns(cfg, isWs, p) == p
  {
    CollapseKeepsSingleSpaces(cfg, isWs, p);
  }

  /** A run of spaces and illegal characters is a boundary run and emits once. */
  lemma {:induction false} RunEmits(cfg: Slugifier, isWs: WhitespaceClass, r: string)
    requires AsciiWhitespace(isWs) && RunOfBoundaries(r)
    ensures IsBoundary(isWs, r[|r| - 1])
    ensures CollapseRuns(cfg, isWs, r) == Emission(cfg, isWs, r[0])
  {
    forall i | 0 <= i < |r| ensures IsBoundary(isWs, r[i]) {
    }
    CollapseRunsOfRun(cfg, isWs, r);
  }

  /**
    Plain text followed by a run of boundary characters: the text is copied,
    the run emits once, and the scan carries on with the rest.
   */
  lemma {:induction false} PieceThenRun(cfg: Slugifier, isWs: WhitespaceClass, p: string, r: string, rest: string)
    requires AsciiWhitespace(isWs) && Plain(p) && RunOfBoundaries(r)
    requires rest == [] || !IsBoundary(isWs, rest[0])
    ensures CollapseRuns(cfg, isWs, p + (r + rest)) == p + Emission(cfg, isWs, r[0]) + CollapseRuns(cfg, isWs, rest)
  {
    PlainPiece(cfg, isWs, p);
    RunEmits(cfg, isWs, r);
    CopyThenEmit(cfg, isWs, p, r, rest, Emission(cfg, isWs, r[0]));
  }

  /** The scan of `p + (r + rest)`, from what it does with `p` and with `r` alone. */
  lemma {:induction false} CopyThenEmit(cfg: Slugifier, isWs: WhitespaceClass, p: string, r: string, rest: string, e: string)
    requires |p| > 0 && !IsBoundary(isWs, p[|p| - 1]) && CollapseRuns(cfg, isWs, p) == p
    requires |r| > 0 && IsBoundary(isWs, r[|r| - 1]) && CollapseRuns(cfg, isWs, r) == e
    requires rest == [] || !IsBoundary(isWs, rest[0])
    ensures CollapseRuns(cfg, isWs, p + (r + rest)) == p + e + CollapseRuns(cfg, isWs, rest)
  {
    var tail := CollapseRuns(cfg, isWs, rest);
    CollapseRunsAppend(cfg, isWs, r, rest);
    assert CollapseRuns(cfg, isWs, r + rest) == e + tail;
    CollapseRunsAppend(cfg, isWs, p, r + rest);
  }

  /** Plain text, a run, plain text, and so on: the scan copies and emits piece by piece. */
  lemma {:induction false} ThreeRuns(cfg: Slugifier, isWs: WhitespaceClass, p1: string, r1: string, p2: string, r2: string,
                  p3: string, r3: string, p4: string)
    requires AsciiWhitespace(isWs)
    requires Plain(p1) && Plain(p2) && Plain(p3) && Plain(p4)
    requires RunOfBoundaries(r1) && RunOfBoundaries(r2) && RunOfBoundaries(r3)
    ensures CollapseRuns(cfg, isWs, p1 + (r1 + (p2 + (r2 + (p3 + (r3 + p4))))))
         == p1 + Emission(cfg, isWs, r1[0]) + (p2 + Emission(cfg, isWs, r2[0]) + (p3 + Emission(cfg, isWs, r3[0]) + p4))
  {
    PlainPiece(cfg, isWs, p4);
    PieceThenRun(cfg, isWs, p3, r3, p4);
    PlainPiece(cfg, isWs, p3);
    assert (p3 + (r3 + p4))[0] == p3[0];
    PieceThenRun(cfg, isWs, p2, r2, p3 + (r3 + p4));
    PlainPiece(cfg, isWs, p2);
    assert (p2 + (r2 + (p3 + (r3 + p4))))[0] == p2[0];
    PieceThenRun(cfg, isWs, p1, r1, p2 + (r2 + (p3 + (r3 + p4))));
  }

  lemma ReportPieces()
    ensures "Report / Section <2>?.docx" == "Report" + (" / " + ("Section" + (" <" + ("2" + (">?" + ".docx")))))
    ensures "Report" + " " + ("Section" + " " + ("2" + "" + ".docx")) == "Report Section 2.docx"
  {
  }

  lemma ReportCollapsed(isWs: WhitespaceClass)
    requires AsciiWhitespace(isWs)
    ensures CollapseRuns(Default(), isWs, "Report / Section <2>?.docx") == "Report Section 2.docx"
  {
    ReportPieces();
    assert Plain("Report") && Plain("Section") && Plain("2") && Plain(".docx");
    assert RunOfBoundaries(" / ") && RunOfBoundaries(" <") && RunOfBoundaries(">?");
    ThreeRuns(Default(), isWs, "Report", " / ", "Section", " <", "2", ">?", ".docx");
  }

  /**
    With the default empty replacement, a run that starts with whitespace
    becomes one space and a run of illegal characters disappears.
   */
  lemma ReportSanitized(isWs: WhitespaceClass)
    requires AsciiWhitespace(isWs)
    ensures SanitizeFilename(Default(), isWs, "Report / Section <2>?.docx") == "Report Section 2.docx"
  {
    ReportCollapsed(isWs);
    TrimKeepsCleanEdges(isWs, "Report Section 2.docx");
  }

  lemma DocsPieces()
    ensures "My Docs/Report:Final?.pdf" == "My" + (" " + ("Docs" + ("/" + ("Report" + (":" + ("Final" + ("?" + ".pdf")))))))
  {
  }

  lemma DocsResult()
    ensures "My" + " " + ("Docs" + "_" + ("Report" + "_" + ("Final" + "_" + ".pdf"))) == "My Docs_Report_Final_.pdf"
  {
  }

  lemma DocsCollapsed(isWs: WhitespaceClass)
    requires AsciiWhitespace(isWs)
    ensures CollapseRuns(WithSanitizeReplacement(Default(), "_"), isWs, "My Docs/Report:Final?.pdf")
         == "My Docs_Report_Final_.pdf"
  {
    var cfg := WithSanitizeReplacement(Default(), "_");
    DocsPieces();
    DocsResult();
    assert Plain("My") && Plain("Docs") && Plain("Report") && Plain("Final") && Plain(".pdf");
    assert RunOfBoundaries(" ") && RunOfBoundaries("/") && RunOfBoundaries(":") && RunOfBoundaries("?");
    var rest := "Docs" + ("/" + ("Report" + (":" + ("Final" + ("?" + ".pdf")))));
    ThreeRuns(cfg, isWs, "Docs", "/", "Report", ":", "Final", "?", ".pdf");
    PlainPiece(cfg, isWs, "Docs");
    assert rest[0] == 'D';
    PieceThenRun(cfg, isWs, "My", " ", rest);
  }

  /** With replacement `_`, each illegal character becomes `_` and the space stays. */
  lemma DocsSanitized(isWs: WhitespaceClass)
    requires AsciiWhitespace(isWs)
    ensures SanitizeFilename(WithSanitizeReplacement(Default(), "_"), isWs, "My Docs/Report:Final?.pdf")
         == "My Docs_Report_Final_.pdf"
  {
    DocsCollapsed(isWs);
    TrimKeepsCleanEdges(isWs, "My Docs_Report_Final_.pdf");
  }

  lemma ValidNamePieces()
    ensures "A perfectly valid filename.txt" == "A" + (" " + ("perfectly" + (" " + ("valid" + (" " + "filename.txt")))))
  {
  }

  lemma ValidNameResult()
    ensures "A" + " " + ("perfectly" + " " + ("valid" + " " + "filename.txt")) == "A perfectly valid filename.txt"
  {
  }

  lemma ValidNameCollapsed(isWs: WhitespaceClass)
    requires AsciiWhitespace(isWs)
    ensures CollapseRuns(Default(), isWs, "A perfectly valid filename.txt") == "A perfectly valid filename.txt"
  {
    ValidNamePieces();
    ValidNameResult();
    assert Plain("A") && Plain("perfectly") && Plain("valid") && Plain("filename.txt");
    assert RunOfBoundaries(" ");
    ThreeRuns(Default(), isWs, "A", " ", "perfectly", " ", "valid", " ", "filename.txt");
  }

  /** A name that needs no change comes back as it is. */
  lemma ValidNameUnchanged(isWs: WhitespaceClass)
    requires AsciiWhitespace(isWs)
    ensures SanitizeFilename(Default(), isWs, "A perfectly valid filename.txt") == "A perfectly valid filename.txt"
  {
    ValidNameCollapsed(isWs);
    TrimKeepsCleanEdges(isWs, "A perfectly valid filename.txt");
  }
}
