/**
 * The two pure checks of the form: the e-mail format test (`isValidEmail`, a regular
 * expression in the source, restated here as a string predicate) and the avatar file check
 * (`validateImageFile`, an allow-list on the declared type followed by a size limit).
 */
module Validators {
  import opened Text

  // ---------------------------------------------------------------- e-mail

  /** Some `.` in `d` has at least one character before it and at least one after it. */
  predicate HasInnerDot(d: string) {
    exists i :: 0 < i < |d| - 1 && d[i] == '.'
  }

  /** `isValidEmail`: no white space anywhere, exactly one `@`, a non-empty part before it,
      and a part after it holding a `.` that is neither its first nor its last character.
      The shortest accepted address has five characters, as in `a@b.c`. */
  predicate IsValidEmail(s: string): (ok: bool)
    ensures ok ==> 5 <= |s| && '@' in s && '.' in s
  {
    && NoWhitespace(s)
    && Count(s, '@') == 1
    && exists k :: 0 < k < |s| && s[k] == '@' && HasInnerDot(s[k + 1..])
  }

  /** One `[^\s@]+` run of the pattern: non-empty, no white space, no `@`. */
  predicate IsSegment(x: string) {
    |x| > 0 && forall i :: 0 <= i < |x| ==> x[i] != '@' && !IsWhitespace(x[i])
  }

  /** `s` splits as `a@b.c` into three segments. */
  predicate IsPatternSplit(s: string, a: string, b: string, c: string) {
    IsSegment(a) && IsSegment(b) && IsSegment(c) && s == a + "@" + b + "." + c
  }

  /** The whole-string match of `^[^\s@]+@[^\s@]+\.[^\s@]+$`. */
  ghost predicate MatchesEmailPattern(s: string) {
    exists a, b, c :: IsPatternSplit(s, a, b, c)
  }

  lemma SegmentHasNoAt(x: string)
    requires IsSegment(x)
    ensures Count(x, '@') == 0 && NoWhitespace(x)
  {
  }

  lemma NoWhitespaceConcat(x: string, y: string)
    requires NoWhitespace(x) && NoWhitespace(y)
    ensures NoWhitespace(x + y)
  {
    forall i | 0 <= i < |x + y| ensures !IsWhitespace((x + y)[i]) {
      if i < |x| { assert (x + y)[i] == x[i]; } else { assert (x + y)[i] == y[i - |x|]; }
    }
  }

  lemma {:induction false} PatternSplitIsValid(s: string, a: string, b: string, c: string)
    requires IsPatternSplit(s, a, b, c)
    ensures IsValidEmail(s)
  {
    var d := b + "." + c;
    assert s == a + "@" + d;
    SegmentHasNoAt(a);
    SegmentHasNoAt(b);
    SegmentHasNoAt(c);
    assert Count("@", '@') == 1 && Count(".", '@') == 0;
    assert NoWhitespace("@") && NoWhitespace(".");
    CountConcat(b, ".", '@');
    CountConcat(b + ".", c, '@');
    CountConcat(a, "@", '@');
    CountConcat(a + "@", d, '@');
    NoWhitespaceConcat(b, ".");
    NoWhitespaceConcat(b + ".", c);
    NoWhitespaceConcat(a, "@");
    NoWhitespaceConcat(a + "@", d);
    var k := |a|;
    assert s[k] == '@' && s[k + 1..] == d;
    assert d[|b|] == '.';
    assert HasInnerDot(d);
  }

  /** With exactly one `@`, at position `k`, no other character is `@`. */
  lemma {:induction false} SingleAtSplit(s: string, k: nat)
    requires k < |s| && s[k] == '@' && Count(s, '@') == 1
    ensures Count(s[..k], '@') == 0 && Count(s[k + 1..], '@') == 0
  {
    assert s == s[..k] + [s[k]] + s[k + 1..];
    assert Count([s[k]], '@') == 1;
    CountConcat(s[..k], [s[k]], '@');
    CountConcat(s[..k] + [s[k]], s[k + 1..], '@');
  }

  lemma SplitAround(x: string, i: nat)
    requires i < |x|
    ensures x == x[..i] + [x[i]] + x[i + 1..]
  {
  }

  lemma Reassociate(s: string, a: string, d: string, b: string, c: string)
    requires s == a + "@" + d && d == b + "." + c
    ensures s == a + "@" + b + "." + c
  {
  }

  /** A non-empty slice of a string free of white space and `@` is a segment. */
  lemma SliceKeepsSegment(s: string, lo: nat, hi: nat)
    requires lo < hi <= |s| && NoWhitespace(s) && '@' !in s
    ensures IsSegment(s[lo..hi])
  {
    forall j | 0 <= j < hi - lo ensures s[lo..hi][j] != '@' && !IsWhitespace(s[lo..hi][j]) {
      assert s[lo..hi][j] == s[lo + j];
    }
  }

  lemma NoWhitespaceSlice(s: string, lo: nat, hi: nat)
    requires lo <= hi <= |s| && NoWhitespace(s)
    ensures NoWhitespace(s[lo..hi])
  {
    forall j | 0 <= j < hi - lo ensures !IsWhitespace(s[lo..hi][j]) {
      assert s[lo..hi][j] == s[lo + j];
    }
  }

  /** The three runs around the only `@` (at `k`) and an inner `.` after it (at `k + 1 + i`) are segments. */
  lemma PartsAreSegments(s: string, k: nat, i: nat)
    requires 0 < k < |s| && s[k] == '@' && Count(s, '@') == 1 && NoWhitespace(s)
    requires 0 < i < |s[k + 1..]| - 1
    ensures IsSegment(s[..k])
    ensures IsSegment(s[k + 1..][..i])
    ensures IsSegment(s[k + 1..][i + 1..])
  {
    var d := s[k + 1..];
    SingleAtSplit(s, k);
    NoWhitespaceSlice(s, 0, k);
    NoWhitespaceSlice(s, k + 1, |s|);
    assert s[0..k] == s[..k] && s[k + 1..|s|] == d;
    SliceKeepsSegment(s[..k], 0, k);
    assert s[..k][0..k] == s[..k];
    SliceKeepsSegment(d, 0, i);
    assert d[0..i] == d[..i];
    SliceKeepsSegment(d, i + 1, |d|);
    assert d[i + 1..|d|] == d[i + 1..];
  }

  /** The split of a valid address at its `@` (position `k`) and an inner `.` (position `k + 1 + i`). */
  lemma SplitAtAtAndDot(s: string, k: nat, i: nat)
    requires 0 < k < |s| && s[k] == '@' && Count(s, '@') == 1 && NoWhitespace(s)
    requires 0 < i < |s[k + 1..]| - 1 && s[k + 1..][i] == '.'
    ensures IsPatternSplit(s, s[..k], s[k + 1..][..i], s[k + 1..][i + 1..])
  {
    var d := s[k + 1..];
    PartsAreSegments(s, k, i);
    SplitAround(d, i);
    SplitAround(s, k);
    assert [s[k]] == "@" && [d[i]] == ".";
    Reassociate(s, s[..k], d, d[..i], d[i + 1..]);
  }

  lemma ValidHasPatternSplit(s: string)
    requires IsValidEmail(s)
    ensures MatchesEmailPattern(s)
  {
    var k :| 0 < k < |s| && s[k] == '@' && HasInnerDot(s[k + 1..]);
    var i :| 0 < i < |s[k + 1..]| - 1 && s[k + 1..][i] == '.';
    SplitAtAtAndDot(s, k, i);
  }

  /** The string predicate is the regular expression: `IsValidEmail(s)` holds exactly when
      `s` splits as `a@b.c` into three runs free of white space and `@`. */
  lemma EmailPatternEquivalence(s: string)
    ensures IsValidEmail(s) <==> MatchesEmailPattern(s)
  {
    if IsValidEmail(s) {
      ValidHasPatternSplit(s);
    }
    if MatchesEmailPattern(s) {
      var a, b, c :| IsPatternSplit(s, a, b, c);
      PatternSplitIsValid(s, a, b, c);
    }
  }

  /** A string without `@`, or whose only `@` has no inner `.` after it, is rejected. */
  lemma EmailNeedsAtAndDot(s: string)
    ensures '@' !in s ==> !IsValidEmail(s)
    ensures (forall j :: 0 <= j < |s| && s[j] == '.' ==> forall k :: 0 <= k < j && s[k] == '@' ==> j <= k + 1 || j == |s| - 1)
            ==> !IsValidEmail(s)
  {
    if IsValidEmail(s) {
      var k :| 0 < k < |s| && s[k] == '@' && HasInnerDot(s[k + 1..]);
      var d := s[k + 1..];
      var i :| 0 < i < |d| - 1 && d[i] == '.';
      assert s[k + 1 + i] == '.';
    }
  }

  /** Two `@` at different positions make the count at least two. */
  lemma {:induction false} TwoAtsCountTwo(s: string, k: nat, k': nat)
    requires k < k' < |s| && s[k] == '@' && s[k'] == '@'
    ensures Count(s, '@') >= 2
  {
    assert s == s[..k + 1] + s[k + 1..];
    CountConcat(s[..k + 1], s[k + 1..], '@');
    assert s[..k + 1][k] == '@';
    assert s[k + 1..][k' - k - 1] == '@';
  }

  /** What the scan knows once it has read all of `s`: the count of `@`, the last `@`,
      and whether an inner `.` follows it. */
  ghost predicate ScanSummary(s: string, ats: nat, lastAt: nat, dot: bool) {
    && NoWhitespace(s)
    && ats == Count(s, '@')
    && (ats > 0 ==> lastAt < |s| && s[lastAt] == '@')
    && (dot <==> ats > 0 && exists j :: lastAt + 1 < j < |s| - 1 && s[j] == '.')
  }

  lemma ScanVerdict(s: string, ats: nat, lastAt: nat, dot: bool)
    requires ScanSummary(s, ats, lastAt, dot)
    ensures (ats == 1 && lastAt > 0 && dot) == IsValidEmail(s)
  {
    if ats == 1 && lastAt > 0 && dot {
      var j :| lastAt + 1 < j < |s| - 1 && s[j] == '.';
      assert s[lastAt + 1..][j - lastAt - 1] == '.';
      assert HasInnerDot(s[lastAt + 1..]);
    }
    if IsValidEmail(s) {
      var k :| 0 < k < |s| && s[k] == '@' && HasInnerDot(s[k + 1..]);
      if k < lastAt {
        TwoAtsCountTwo(s, k, lastAt);
      } else if lastAt < k {
        TwoAtsCountTwo(s, lastAt, k);
      }
      var d := s[k + 1..];
      var i :| 0 < i < |d| - 1 && d[i] == '.';
      assert s[k + 1 + i] == '.';
    }
  }

  /** A hand-written single left-to-right scan of `s`, equivalent to `IsValidEmail`. */
  method ScanEmail(s: string) returns (ok: bool)
    ensures ok == IsValidEmail(s)
  {
    var ats := 0;        // number of '@' seen so far
    var lastAt := 0;     // position of the last '@' seen, when ats > 0
    var dot := false;    // an inner '.' follows the last '@'
    var i := 0;
    while i < |s|
      invariant 0 <= i <= |s|
      invariant NoWhitespace(s[..i])
      invariant ats == Count(s[..i], '@')
      invariant ats > 0 ==> lastAt < i && s[lastAt] == '@'
      invariant dot <==> ats > 0 && exists j :: lastAt + 1 < j < i && j < |s| - 1 && s[j] == '.'
    {
      var ch := s[i];
      if IsWhitespace(ch) {
        assert !NoWhitespace(s);
        return false;
      }
      assert s[..i + 1] == s[..i] + [ch];
      CountConcat(s[..i], [ch], '@');
      assert NoWhitespace([ch]);
      NoWhitespaceConcat(s[..i], [ch]);
      if ch == '@' {
        ats, lastAt, dot := ats + 1, i, false;
      } else if ch == '.' && ats > 0 && lastAt + 1 < i < |s| - 1 {
        dot := true;
        assert lastAt + 1 < i < i + 1 && i < |s| - 1 && s[i] == '.';
      }
      i := i + 1;
    }
    assert s[..i] == s;
    ScanVerdict(s, ats, lastAt, dot);
    ok := ats == 1 && lastAt > 0 && dot;
  }

  // ---------------------------------------------------------------- avatar file

  /** What the check sees of a picked file: its declared MIME type and its size in bytes. */
  datatype ImageFile = ImageFile(mimeType: string, size: nat)

  /** The outcome of `validateImageFile`: `{ valid: true }` or `{ valid: false, message }`. */
  datatype Validation = Accepted | Rejected(message: string)

  const MaxImageSize: nat := 500 * 1024
  const AllowedTypes: seq<string> := ["image/jpeg", "image/jpg", "image/png"]
  const TypeMessage: string := "Only JPG or PNG files are allowed"
  const SizeMessage: string := "The file is too large (maximum 500KB)"

  /** One of the three JPEG and PNG types. */
  predicate IsAllowedType(t: string) {
    t == "image/jpeg" || t == "image/jpg" || t == "image/png"
  }

  /** A JPEG or PNG of at most 512000 bytes. */
  predicate IsAcceptableImage(f: ImageFile) {
    IsAllowedType(f.mimeType) && f.size <= 512000
  }

  /** `validateImageFile`: the type is checked before the size, each failure with its own message. */
  function ValidateImageFile(f: ImageFile): (r: Validation)
    ensures r.Accepted? <==> IsAcceptableImage(f)
    ensures r.Rejected? ==> r.message == TypeMessage || r.message == SizeMessage
    ensures r == Rejected(TypeMessage) <==> !IsAllowedType(f.mimeType)
    ensures r == Rejected(SizeMessage) <==> IsAllowedType(f.mimeType) && f.size > 512000
  {
    if f.mimeType !in AllowedTypes then Rejected(TypeMessage)
    else if f.size > MaxImageSize then Rejected(SizeMessage)
    else Accepted
  }

  /** The size limit is inclusive: 512000 bytes pass and 512001 bytes fail, for every allowed type. */
  lemma SizeBoundary(mimeType: string)
    requires mimeType in AllowedTypes
    ensures ValidateImageFile(ImageFile(mimeType, 512000)) == Accepted
    ensures ValidateImageFile(ImageFile(mimeType, 512001)) == Rejected(SizeMessage)
  {
  }

  /** The type check wins: a file of another type gets the type message however large it is. */
  lemma TypeCheckedBeforeSize(mimeType: string, size: nat)
    requires mimeType !in AllowedTypes
    ensures ValidateImageFile(ImageFile(mimeType, size)) == Rejected(TypeMessage)
  {
  }
}
