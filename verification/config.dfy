/**
  The `Slugifier` configuration record of src/lib.rs, its `Default`, and the
  builder setters. A configuration is an immutable value: every setter returns
  a new record that differs from its argument in exactly one field.
 */
module Config {

  datatype Option<T> = None | Some(value: T)

  /**
    Rust's `Slugifier { separator, to_lowercase, truncate, sanitize_replacement }`.
    `truncate` is a `usize` limit counted in bytes of the slug.
   */
  datatype Slugifier = Slugifier(
    separator: string,
    toLowercase: bool,
    truncate: Option<nat>,
    sanitizeReplacement: string)

  /** `Slugifier::default()` (also `Slugifier::new()`). */
  function Default(): (r: Slugifier)
    ensures r.separator == "-" && r.toLowercase
    ensures r.truncate == None && r.sanitizeReplacement == ""
  {
    Slugifier("-", true, None, "")
  }

  /** `Slugifier::separator`. */
  function WithSeparator(c: Slugifier, separator: string): (r: Slugifier)
    ensures r.separator == separator
    ensures r.toLowercase == c.toLowercase && r.truncate == c.truncate
    ensures r.sanitizeReplacement == c.sanitizeReplacement
  {
    c.(separator := separator)
  }

  /** `Slugifier::to_lowercase`. */
  function WithLowercase(c: Slugifier, lowercase: bool): (r: Slugifier)
    ensures r.toLowercase == lowercase
    ensures r.separator == c.separator && r.truncate == c.truncate
    ensures r.sanitizeReplacement == c.sanitizeReplacement
  {
    c.(toLowercase := lowercase)
  }

  /** `Slugifier::truncate`: any `usize`, zero included, becomes the limit. */
  function WithTruncate(c: Slugifier, maxLength: nat): (r: Slugifier)
    ensures r.truncate == Some(maxLength)
    ensures r.separator == c.separator && r.toLowercase == c.toLowercase
    ensures r.sanitizeReplacement == c.sanitizeReplacement
  {
    c.(truncate := Some(maxLength))
  }

  /** `Slugifier::sanitize_replacement`. */
  function WithSanitizeReplacement(c: Slugifier, replacement: string): (r: Slugifier)
    ensures r.sanitizeReplacement == replacement
    ensures r.separator == c.separator && r.toLowercase == c.toLowercase
    ensures r.truncate == c.truncate
  {
    c.(sanitizeReplacement := replacement)
  }

  /**
    Every configuration is reachable from `Slugifier::new()` through the
    setters; in particular the default has no truncation limit.
   */
  lemma BuilderReachesEveryConfiguration(c: Slugifier)
    ensures Default().truncate.None?
    ensures var b := WithSanitizeReplacement(WithLowercase(WithSeparator(Default(), c.separator), c.toLowercase),
                                             c.sanitizeReplacement);
            c == (if c.truncate.Some? then WithTruncate(b, c.truncate.value) else b)
  {
  }

  /** Setting a field twice keeps only the last value, and setters of different fields commute. */
  lemma SettersLastWriteWins(c: Slugifier, s1: string, s2: string, l1: bool, l2: bool, n1: nat, n2: nat)
    ensures WithSeparator(WithSeparator(c, s1), s2) == WithSeparator(c, s2)
    ensures WithLowercase(WithLowercase(c, l1), l2) == WithLowercase(c, l2)
    ensures WithTruncate(WithTruncate(c, n1), n2) == WithTruncate(c, n2)
    ensures WithSanitizeReplacement(WithSanitizeReplacement(c, s1), s2) == WithSanitizeReplacement(c, s2)
    ensures WithLowercase(WithSeparator(c, s1), l1) == WithSeparator(WithLowercase(c, l1), s1)
    ensures WithTruncate(WithSeparator(c, s1), n1) == WithSeparator(WithTruncate(c, n1), s1)
    ensures WithSanitizeReplacement(WithSeparator(c, s1), s2) == WithSeparator(WithSanitizeReplacement(c, s2), s1)
    ensures WithTruncate(WithLowercase(c, l1), n1) == WithLowercase(WithTruncate(c, n1), l1)
    ensures WithSanitizeReplacement(WithLowercase(c, l1), s1) == WithLowercase(WithSanitizeReplacement(c, s1), l1)
    ensures WithSanitizeReplacement(WithTruncate(c, n1), s1) == WithTruncate(WithSanitizeReplacement(c, s1), n1)
  {
  }
}
