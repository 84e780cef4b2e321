/**
  `Slugifier::sanitize_filename` of src/lib.rs: a one-flag scan that keeps
  ordinary characters and collapses each run of whitespace or illegal
  filename characters into one emission, followed by `str::trim`.

  Rust's `char::is_whitespace` (the Unicode White_Space property) is not
  spelled out here: it is a parameter `isWs`, and the same classification is
  used by the scan and by the trim, as in the source.

  The scan is modelled as the loop does it (`Pass`, with the
  `last_char_was_boundary` flag) and, independently, run by run
  (`CollapseRuns`); `PassMatchesRuns` proves the two agree.
 */
module Sanitize {
  import opened Config

  /** A whitespace classification of characters, standing for `char::is_whitespace`. */
  type WhitespaceClass = char -> bool

  /**
    Membership in `ILLEGAL_FILENAME_CHARS`: `/ \ : * ? " < > |`, nine
    printable ASCII characters, none of them the space.
   */
  predicate IsIllegal(c: char): (r: bool)
    ensures r ==> 32 < c as int < 127
  {
    || c == '/' || c == '\\' || c == ':' || c == '*' || c == '?'
    || c == '"' || c == '<' || c == '>' || c == '|'
  }

  /**
    A character the scan does not copy: illegal or whitespace. A boundary
    character that is not whitespace is one of the nine illegal ones, so it
    is printable ASCII.
   */
  predicate IsBoundary(isWs: WhitespaceClass, c: char): (r: bool)
    ensures IsIllegal(c) ==> r
    ensures isWs(c) ==> r
    ensures r && !isWs(c) ==> 32 < c as int < 127
  {
    IsIllegal(c) || isWs(c)
  }

  /** What a run of boundary characters emits: decided by the run's first character. */
  function Emission(cfg: Slugifier, isWs: WhitespaceClass, c: char): (e: string)
    ensures isWs(c) ==> e == " "
    ensures IsIllegal(c) && !isWs(c) ==> e == cfg.sanitizeReplacement
    ensures NoIllegal(cfg.sanitizeReplacement) ==> NoIllegal(e)
  {
    if isWs(c) then " " else cfg.sanitizeReplacement
  }

  predicate AllWhitespace(isWs: WhitespaceClass, s: string) {
    forall i :: 0 <= i < |s| ==> isWs(s[i])
  }

  predicate NoIllegal(s: string) {
    forall i :: 0 <= i < |s| ==> !IsIllegal(s[i])
  }

  // ---------------------------------------------------------------------------
  // Trimming
  // ---------------------------------------------------------------------------

  /** Where the whitespace that starts at index `i` of `s` ends. */
  function WhitespaceEnd(isWs: WhitespaceClass, s: string, i: nat): (n: nat)
    requires i <= |s|
    ensures i <= n <= |s|
    ensures forall j :: i <= j < n ==> isWs(s[j])
    ensures n == |s| || !isWs(s[n])
    decreases |s| - i
  {
    if i < |s| && isWs(s[i]) then WhitespaceEnd(isWs, s, i + 1) else i
  }

  /** Where the whitespace that ends at index `k` of `s` starts, looking no further back than `lo`. */
  function WhitespaceStart(isWs: WhitespaceClass, s: string, lo: nat, k: nat): (m: nat)
    requires lo <= k <= |s|
    ensures lo <= m <= k
    ensures forall j :: m <= j < k ==> isWs(s[j])
    ensures m == lo || !isWs(s[m - 1])
    decreases k
  {
    if lo < k && isWs(s[k - 1]) then WhitespaceStart(isWs, s, lo, k - 1) else k
  }

  /**
    The part of `s` that `str::trim` keeps, as a pair of indices: everything
    before the first and from the second on is whitespace, and the kept part
    neither starts nor ends with whitespace.
   */
  function TrimBounds(isWs: WhitespaceClass, s: string): (b: (nat, nat))
    ensures b.0 <= b.1 <= |s|
    ensures forall j :: 0 <= j < b.0 ==> isWs(s[j])
    ensures forall j :: b.1 <= j < |s| ==> isWs(s[j])
    ensures b.0 < b.1 ==> !isWs(s[b.0]) && !isWs(s[b.1 - 1])
  {
    var n := WhitespaceEnd(isWs, s, 0);
    (n, WhitespaceStart(isWs, s, n, |s|))
  }

  /**
    `str::trim`: `s` without its leading and trailing whitespace. Only
    whitespace is dropped, and none is left at either end.
   */
  function Trim(isWs: WhitespaceClass, s: string): (r: string)
    ensures |r| > 0 ==> !isWs(r[0]) && !isWs(r[|r| - 1])
    ensures var b := TrimBounds(isWs, s);
            r == s[b.0..b.1]
  {
    var b := TrimBounds(isWs, s);
    s[b.0..b.1]
  }

  /** Text that neither starts nor ends with whitespace is not trimmed. */
  lemma TrimKeepsCleanEdges(isWs: WhitespaceClass, s: string)
    requires |s| == 0 || (!isWs(s[0]) && !isWs(s[|s| - 1]))
    ensures Trim(isWs, s) == s
  {
    var b := TrimBounds(isWs, s);
    assert b.0 < |s| ==> b.1 == |s|;
  }

  // ---------------------------------------------------------------------------
  // The scan, as the loop does it and run by run
  // ---------------------------------------------------------------------------

  /**
    What one iteration of the loop appends for character `c`: a boundary
    character emits only when the previous character was not a boundary, an
    ordinary character is copied. Only the replacement can bring in an
    illegal character.
   */
  function Emitted(cfg: Slugifier, isWs: WhitespaceClass, c: char, lastWasBoundary: bool): (r: string)
    ensures IsBoundary(isWs, c) && lastWasBoundary ==> r == []
    ensures !IsBoundary(isWs, c) ==> r == [c]
    ensures NoIllegal(cfg.sanitizeReplacement) ==> NoIllegal(r)
  {
    if IsBoundary(isWs, c) then (if lastWasBoundary then [] else Emission(cfg, isWs, c)) else [c]
  }

  /**
    The output the loop appends while consuming `s`, starting with the given
    flag. It begins with the first character when that one is ordinary, and
    it holds no illegal character when the replacement holds none.
   */
  function Pass(cfg: Slugifier, isWs: WhitespaceClass, s: string, lastWasBoundary: bool): (r: string)
    ensures NoIllegal(cfg.sanitizeReplacement) ==> NoIllegal(r)
    ensures |s| > 0 && !IsBoundary(isWs, s[0]) ==> |r| > 0 && r[0] == s[0]
    decreases |s|
  {
    if |s| == 0 then []
    else Emitted(cfg, isWs, s[0], lastWasBoundary) + Pass(cfg, isWs, s[1..], IsBoundary(isWs, s[0]))
  }

  /** The length of the maximal run of boundary characters that starts `s`. */
  function BoundaryRunLength(isWs: WhitespaceClass, s: string): (n: nat)
    requires |s| > 0 && IsBoundary(isWs, s[0])
    ensures 1 <= n <= |s|
    ensures forall i :: 0 <= i < n ==> IsBoundary(isWs, s[i])
    ensures n == |s| || !IsBoundary(isWs, s[n])
    decreases |s|
  {
    if |s| == 1 || !IsBoundary(isWs, s[1]) then 1 else 1 + BoundaryRunLength(isWs, s[1..])
  }

  /**
    The reference description of the scan: ordinary characters are copied,
    and each maximal run of boundary characters becomes a single emission,
    `" "` when its first character is whitespace and the replacement string
    otherwise.
   */
  function CollapseRuns(cfg: Slugifier, isWs: WhitespaceClass, s: string): string
    decreases |s|
  {
    if |s| == 0 then []
    else if IsBoundary(isWs, s[0]) then
      Emission(cfg, isWs, s[0]) + CollapseRuns(cfg, isWs, s[BoundaryRunLength(isWs, s)..])
    else
      [s[0]] + CollapseRuns(cfg, isWs, s[1..])
  }

  /** With the flag set, a run of boundary characters emits nothing more. */
  lemma {:induction false} PassSkipsBoundaries(cfg: Slugifier, isWs: WhitespaceClass, s: string, k: nat)
    requires k <= |s|
    requires forall i :: 0 <= i < k ==> IsBoundary(isWs, s[i])
    ensures Pass(cfg, isWs, s, true) == Pass(cfg, isWs, s[k..], true)
    decreases k
  {
    if k > 0 {
      PassSkipsBoundaries(cfg, isWs, s[1..], k - 1);
      assert s[1..][k - 1..] == s[k..];
    }
  }

  /** The loop and the run-by-run description produce the same text. */
  lemma {:induction false} PassMatchesRuns(cfg: Slugifier, isWs: WhitespaceClass, s: string)
    ensures Pass(cfg, isWs, s, false) == CollapseRuns(cfg, isWs, s)
    decreases |s|
  {
    if |s| > 0 {
      if IsBoundary(isWs, s[0]) {
        var n := BoundaryRunLength(isWs, s);
        PassSkipsBoundaries(cfg, isWs, s[1..], n - 1);
        assert s[1..][n - 1..] == s[n..];
        PassMatchesRuns(cfg, isWs, s[n..]);
      } else {
        PassMatchesRuns(cfg, isWs, s[1..]);
      }
    }
  }

  /**
    `sanitize_filename`: boundary runs collapsed into single emissions, then
    whitespace trimmed from both ends. The result never starts or ends with
    whitespace, and empty input gives empty output.
   */
  function SanitizeFilename(cfg: Slugifier, isWs: WhitespaceClass, filename: string): (r: string)
    ensures r == Trim(isWs, CollapseRuns(cfg, isWs, filename))
    ensures |r| > 0 ==> !isWs(r[0]) && !isWs(r[|r| - 1])
    ensures filename == [] ==> r == []
  {
    PassMatchesRuns(cfg, isWs, filename);
    Trim(isWs, Pass(cfg, isWs, filename, false))
  }

  /** One iteration of the loop moves one emission from the output still to come to the output so far. */
  lemma {:induction false} PassStep(cfg: Slugifier, isWs: WhitespaceClass, s: string, i: nat, flag: bool, before: string)
    requires i < |s|
    ensures before + Pass(cfg, isWs, s[i..], flag)
         == (before + Emitted(cfg, isWs, s[i], flag)) + Pass(cfg, isWs, s[i + 1..], IsBoundary(isWs, s[i]))
  {
    assert s[i..][1..] == s[i + 1..];
  }

  /** The `for` loop of `sanitize_filename`, statement by statement. */
  method CollapseLoop(cfg: Slugifier, isWs: WhitespaceClass, filename: string) returns (sanitized: string)
    ensures sanitized == CollapseRuns(cfg, isWs, filename)
  {
    sanitized := [];
    var lastCharWasBoundary := false;
    for i := 0 to |filename|
      invariant sanitized + Pass(cfg, isWs, filename[i..], lastCharWasBoundary) == Pass(cfg, isWs, filename, false)
    {
      var c := filename[i];
      PassStep(cfg, isWs, filename, i, lastCharWasBoundary, sanitized);
      ghost var expected := sanitized + Emitted(cfg, isWs, c, lastCharWasBoundary);
      if IsIllegal(c) || isWs(c) {
        if !lastCharWasBoundary {
          if isWs(c) {
            sanitized := sanitized + [' '];
          } else {
            sanitized := sanitized + cfg.sanitizeReplacement;
          }
          lastCharWasBoundary := true;
        }
      } else {
        sanitized := sanitized + [c];
        lastCharWasBoundary := false;
      }
      assert sanitized == expected && lastCharWasBoundary == IsBoundary(isWs, c);
    }
    assert filename[|filename|..] == [];
    PassMatchesRuns(cfg, isWs, filename);
  }

  /** `sanitize_filename` as a method: the loop, then the trim. */
  method SanitizeFilenameLoop(cfg: Slugifier, isWs: WhitespaceClass, filename: string) returns (r: string)
    ensures r == SanitizeFilename(cfg, isWs, filename)
  {
    var sanitized := CollapseLoop(cfg, isWs, filename);
    r := Trim(isWs, sanitized);
  }

  /** The run starting `a` is not lengthened by what follows `a`, unless `a` is all run and `b` continues it. */
  lemma RunLengthOfAppend(isWs: WhitespaceClass, a: string, b: string)
    requires |a| > 0 && IsBoundary(isWs, a[0])
    requires b == [] || !IsBoundary(isWs, a[|a| - 1]) || !IsBoundary(isWs, b[0])
    ensures BoundaryRunLength(isWs, a + b) == BoundaryRunLength(isWs, a)
  {
    var n, m := BoundaryRunLength(isWs, a + b), BoundaryRunLength(isWs, a);
    assert m < |a| ==> (a + b)[m] == a[m];
    assert m == |a| && b != [] ==> (a + b)[m] == b[0];
  }

  /**
    The scan works piecewise: text splits into two parts that are scanned
    separately, unless the split falls inside a run of boundary characters.
   */
  lemma {:induction false} CollapseRunsAppend(cfg: Slugifier, isWs: WhitespaceClass, a: string, b: string)
    requires a == [] || b == [] || !IsBoundary(isWs, a[|a| - 1]) || !IsBoundary(isWs, b[0])
    ensures CollapseRuns(cfg, isWs, a + b) == CollapseRuns(cfg, isWs, a) + CollapseRuns(cfg, isWs, b)
    decreases |a|, 1
  {
    if a == [] {
      assert a + b == b;
    } else if IsBoundary(isWs, a[0]) {
      CollapseRunsAppendRun(cfg, isWs, a, b);
    } else {
      CollapseRunsAppendOrdinary(cfg, isWs, a, b);
    }
  }

  /** Dropping a non-empty front of `a` from `a + b`: what is left, and where its last character comes from. */
  lemma {:induction false} DropFromAppend(a: string, b: string, m: nat)
    requires 0 < m <= |a|
    ensures (a + b)[0] == a[0] && (a + b)[m..] == a[m..] + b
    ensures a[m..] == [] || a[m..][|a[m..]| - 1] == a[|a| - 1]
  {
  }

  lemma {:induction false} CollapseRunsAppendRun(cfg: Slugifier, isWs: WhitespaceClass, a: string, b: string)
    requires |a| > 0 && IsBoundary(isWs, a[0])
    requires b == [] || !IsBoundary(isWs, a[|a| - 1]) || !IsBoundary(isWs, b[0])
    ensures CollapseRuns(cfg, isWs, a + b) == CollapseRuns(cfg, isWs, a) + CollapseRuns(cfg, isWs, b)
    decreases |a|, 0
  {
    RunLengthOfAppend(isWs, a, b);
    var m := BoundaryRunLength(isWs, a);
    DropFromAppend(a, b, m);
    CollapseRunsAppend(cfg, isWs, a[m..], b);
  }

  lemma {:induction false} CollapseRunsAppendOrdinary(cfg: Slugifier, isWs: WhitespaceClass, a: string, b: string)
    requires |a| > 0 && !IsBoundary(isWs, a[0])
    requires b == [] || !IsBoundary(isWs, a[|a| - 1]) || !IsBoundary(isWs, b[0])
    ensures CollapseRuns(cfg, isWs, a + b) == CollapseRuns(cfg, isWs, a) + CollapseRuns(cfg, isWs, b)
    decreases |a|, 0
  {
    DropFromAppend(a, b, 1);
    CollapseRunsAppend(cfg, isWs, a[1..], b);
  }

  /** A run of boundary characters alone emits exactly one emission. */
  lemma CollapseRunsOfRun(cfg: Slugifier, isWs: WhitespaceClass, s: string)
    requires |s| > 0 && forall i :: 0 <= i < |s| ==> IsBoundary(isWs, s[i])
    ensures CollapseRuns(cfg, isWs, s) == Emission(cfg, isWs, s[0])
  {
  }

  // ---------------------------------------------------------------------------
  // Properties
  // ---------------------------------------------------------------------------

  lemma {:induction false} CollapseRunsNoIllegal(cfg: Slugifier, isWs: WhitespaceClass, s: string)
    requires NoIllegal(cfg.sanitizeReplacement)
    ensures NoIllegal(CollapseRuns(cfg, isWs, s))
    decreases |s|
  {
    if |s| > 0 {
      if IsBoundary(isWs, s[0]) {
        CollapseRunsNoIllegal(cfg, isWs, s[BoundaryRunLength(isWs, s)..]);
      } else {
        CollapseRunsNoIllegal(cfg, isWs, s[1..]);
      }
    }
  }

  /**
    Sanitised names are safe: when the replacement holds no illegal
    character, the result holds none of `/ \ : * ? " < > |`.
   */
  lemma SanitizeIsSafe(cfg: Slugifier, isWs: WhitespaceClass, filename: string)
    requires NoIllegal(cfg.sanitizeReplacement)
    ensures NoIllegal(SanitizeFilename(cfg, isWs, filename))
  {
    CollapseRunsNoIllegal(cfg, isWs, filename);
  }

  /** Text whose only boundary characters are single spaces survives the scan unchanged. */
  lemma {:induction false} CollapseKeepsSingleSpaces(cfg: Slugifier, isWs: WhitespaceClass, s: string)
    requires isWs(' ')
    requires forall i :: 0 <= i < |s| && IsBoundary(isWs, s[i]) ==>
               s[i] == ' ' && (i + 1 == |s| || !IsBoundary(isWs, s[i + 1]))
    ensures CollapseRuns(cfg, isWs, s) == s
    decreases |s|
  {
    if |s| > 0 {
      forall i | 0 <= i < |s[1..]| && IsBoundary(isWs, s[1..][i])
        ensures s[1..][i] == ' ' && (i + 1 == |s[1..]| || !IsBoundary(isWs, s[1..][i + 1]))
      {
        assert s[1..][i] == s[i + 1];
      }
      CollapseKeepsSingleSpaces(cfg, isWs, s[1..]);
    }
  }

  /**
    A name that is already clean (no illegal characters, every whitespace a
    single space between ordinary characters) is returned unchanged.
   */
  lemma SanitizeKeepsCleanName(cfg: Slugifier, isWs: WhitespaceClass, filename: string)
    requires isWs(' ')
    requires forall i :: 0 <= i < |filename| && IsBoundary(isWs, filename[i]) ==>
               filename[i] == ' ' && 0 < i < |filename| - 1 && !IsBoundary(isWs, filename[i + 1])
    ensures SanitizeFilename(cfg, isWs, filename) == filename
  {
    CollapseKeepsSingleSpaces(cfg, isWs, filename);
    TrimKeepsCleanEdges(isWs, filename);
  }

  /** The ordinary (non-boundary) characters of `s`, in order. */
  function Ordinary(isWs: WhitespaceClass, s: string): string
    decreases |s|
  {
    if |s| == 0 then []
    else (if IsBoundary(isWs, s[0]) then [] else [s[0]]) + Ordinary(isWs, s[1..])
  }

  lemma {:induction false} OrdinaryAppend(isWs: WhitespaceClass, a: string, b: string)
    ensures Ordinary(isWs, a + b) == Ordinary(isWs, a) + Ordinary(isWs, b)
    decreases |a|
  {
    if a == [] {
      assert a + b == b;
    } else {
      assert (a + b)[1..] == a[1..] + b;
      OrdinaryAppend(isWs, a[1..], b);
    }
  }

  lemma {:induction false} OrdinaryOfBoundaries(isWs: WhitespaceClass, s: string)
    requires forall i :: 0 <= i < |s| ==> IsBoundary(isWs, s[i])
    ensures Ordinary(isWs, s) == []
    decreases |s|
  {
    if s != [] {
      OrdinaryOfBoundaries(isWs, s[1..]);
    }
  }

  lemma {:induction false} CollapseRunsKeepsOrdinary(cfg: Slugifier, isWs: WhitespaceClass, s: string)
    requires isWs(' ')
    requires forall i :: 0 <= i < |cfg.sanitizeReplacement| ==> IsBoundary(isWs, cfg.sanitizeReplacement[i])
    ensures Ordinary(isWs, CollapseRuns(cfg, isWs, s)) == Ordinary(isWs, s)
    decreases |s|
  {
    if |s| > 0 {
      if IsBoundary(isWs, s[0]) {
        var n := BoundaryRunLength(isWs, s);
        var e := Emission(cfg, isWs, s[0]);
        CollapseRunsKeepsOrdinary(cfg, isWs, s[n..]);
        OrdinaryAppend(isWs, e, CollapseRuns(cfg, isWs, s[n..]));
        OrdinaryOfBoundaries(isWs, e);
        assert s == s[..n] + s[n..];
        OrdinaryAppend(isWs, s[..n], s[n..]);
        OrdinaryOfBoundaries(isWs, s[..n]);
      } else {
        CollapseRunsKeepsOrdinary(cfg, isWs, s[1..]);
      }
    }
  }

  /**
    Ordinary characters are kept, unchanged and in order: when the
    replacement consists of boundary characters only (the default empty
    replacement, say), the ordinary characters of the result are exactly
    those of the input.
   */
  lemma SanitizeKeepsOrdinaryCharacters(cfg: Slugifier, isWs: WhitespaceClass, filename: string)
    requires isWs(' ')
    requires forall i :: 0 <= i < |cfg.sanitizeReplacement| ==> IsBoundary(isWs, cfg.sanitizeReplacement[i])
    ensures Ordinary(isWs, SanitizeFilename(cfg, isWs, filename)) == Ordinary(isWs, filename)
  {
    CollapseRunsKeepsOrdinary(cfg, isWs, filename);
    OrdinaryOfTrim(isWs, CollapseRuns(cfg, isWs, filename));
  }

  /** A stretch of whitespace characters is a whitespace string. */
  lemma {:induction false} WhitespaceSlice(isWs: WhitespaceClass, s: string, lo: nat, hi: nat)
    requires lo <= hi <= |s|
    requires forall j :: lo <= j < hi ==> isWs(s[j])
    ensures AllWhitespace(isWs, s[lo..hi])
  {
    forall j | 0 <= j < hi - lo ensures isWs(s[lo..hi][j]) {
      assert s[lo..hi][j] == s[lo + j];
    }
  }

  /** The trim splits a string into leading whitespace, the trimmed text and trailing whitespace. */
  lemma {:induction false} TrimSplits(isWs: WhitespaceClass, s: string) returns (front: string, back: string)
    ensures s == front + (Trim(isWs, s) + back)
    ensures AllWhitespace(isWs, front) && AllWhitespace(isWs, back)
  {
    var b := TrimBounds(isWs, s);
    front, back := s[0..b.0], s[b.1..|s|];
    WhitespaceSlice(isWs, s, 0, b.0);
    WhitespaceSlice(isWs, s, b.1, |s|);
    var kept := Trim(isWs, s);
    assert kept == s[b.0..b.1];
    assert s == front + (kept + back);
  }

  /** Trimming drops whitespace only, so no ordinary character. */
  lemma {:induction false} OrdinaryOfTrim(isWs: WhitespaceClass, s: string)
    ensures Ordinary(isWs, Trim(isWs, s)) == Ordinary(isWs, s)
  {
    var kept := Trim(isWs, s);
    var front, back := TrimSplits(isWs, s);
    OrdinaryDropsWhitespace(isWs, front, kept + back);
    OrdinaryAppend(isWs, kept, back);
    OrdinaryDropsWhitespace(isWs, back, []);
    assert back + [] == back;
  }

  /** Whitespace next to a string adds no ordinary character, on either side. */
  lemma {:induction false} OrdinaryDropsWhitespace(isWs: WhitespaceClass, w: string, s: string)
    requires AllWhitespace(isWs, w)
    ensures Ordinary(isWs, w + s) == Ordinary(isWs, s)
    ensures Ordinary(isWs, w) == []
  {
    OrdinaryAppend(isWs, w, s);
    OrdinaryOfBoundaries(isWs, w);
  }

  /**
    The trim removes whitespace only: a run of illegal characters at the
    start of the name emits the replacement, and a replacement that holds no
    whitespace stays at the front of the result.
   */
  lemma SanitizeKeepsLeadingReplacement(cfg: Slugifier, isWs: WhitespaceClass, filename: string)
    requires |filename| > 0 && IsIllegal(filename[0]) && !isWs(filename[0])
    requires |cfg.sanitizeReplacement| > 0 && AllNonWhitespace(isWs, cfg.sanitizeReplacement)
    ensures cfg.sanitizeReplacement <= SanitizeFilename(cfg, isWs, filename)
  {
    var rep := cfg.sanitizeReplacement;
    var c := CollapseRuns(cfg, isWs, filename);
    assert c[..|rep|] == rep;
    var b := TrimBounds(isWs, c);
    assert !isWs(c[0]) && !isWs(c[|rep| - 1]);
    assert b.0 == 0 && b.1 >= |rep|;
  }

  predicate AllNonWhitespace(isWs: WhitespaceClass, s: string) {
    forall i :: 0 <= i < |s| ==> !isWs(s[i])
  }

  predicate EndsWith(s: string, suffix: string) {
    |suffix| <= |s| && s[|s| - |suffix|..] == suffix
  }

  /** Trimming keeps a suffix that neither starts nor ends with whitespace. */
  lemma {:induction false} TrimKeepsCleanSuffix(isWs: WhitespaceClass, c: string, rep: string)
    requires |rep| > 0 && AllNonWhitespace(isWs, rep)
    ensures EndsWith(Trim(isWs, c + rep), rep)
  {
    var s := c + rep;
    var b := TrimBounds(isWs, s);
    assert s[|s| - 1] == rep[|rep| - 1];
    assert s[|c|] == rep[0];
    assert b.1 == |s|;
    assert b.0 <= |c|;
    var r := Trim(isWs, s);
    assert r == s[b.0..];
    assert r[|r| - |rep|..] == s[|c|..];
  }

  /**
    The trailing counterpart of `SanitizeKeepsLeadingReplacement`: a final
    run of boundary characters that starts with an illegal character emits
    the replacement, and a replacement that holds no whitespace stays at the
    end of the result (`what?` with `_` gives `what_`).
   */
  lemma {:induction false} SanitizeKeepsTrailingReplacement(cfg: Slugifier, isWs: WhitespaceClass, filename: string, k: nat)
    requires k < |filename| && IsIllegal(filename[k]) && !isWs(filename[k])
    requires forall i :: k <= i < |filename| ==> IsBoundary(isWs, filename[i])
    requires k == 0 || !IsBoundary(isWs, filename[k - 1])
    requires |cfg.sanitizeReplacement| > 0 && AllNonWhitespace(isWs, cfg.sanitizeReplacement)
    ensures EndsWith(SanitizeFilename(cfg, isWs, filename), cfg.sanitizeReplacement)
  {
    var front, run := filename[..k], filename[k..];
    assert filename == front + run;
    assert front != [] ==> front[|front| - 1] == filename[k - 1];
    CollapseRunsAppend(cfg, isWs, front, run);
    assert run[0] == filename[k];
    CollapseRunsOfRun(cfg, isWs, run);
    TrimKeepsCleanSuffix(isWs, CollapseRuns(cfg, isWs, front), cfg.sanitizeReplacement);
  }
}
