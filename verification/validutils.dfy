/**
  The validation predicates of the earlier utility module: two regular
  expressions and two type-and-shape tests on request values.

  The regular expressions are modelled by the way a backtracking matcher runs
  them (greedy repetition that gives characters back, lookaheads that scan
  forward, an unanchored search that retries at every start position), and
  each matcher is then proved equal to a plain description of the strings it
  accepts.
 */
module ValidUtils {
  import opened JsValues

  // ---------------------------------------------------------------------------
  // isInvalidString / isInvalidInteger
  // ---------------------------------------------------------------------------

  /** A string holding at least one character that is not whitespace. */
  predicate NonBlankString(v: JsValue) {
    v.Str? && exists i :: 0 <= i < |v.s| && !IsJsWhitespace(v.s[i])
  }

  /** A number that is a whole number and not negative. */
  predicate NonNegativeInteger(v: JsValue) {
    v.Num? && v.n.Integral? && v.n.i >= 0
  }

  /**
    `value === undefined || typeof value !== "string" || value.trim().length === 0`:
    a value is a valid string exactly when it is a string with at least one
    character that `trim` would keep.
   */
  function IsInvalidString(v: JsValue): (invalid: bool)
    ensures !invalid <==> NonBlankString(v)
  {
    v.Undefined? || !v.Str? || (TrimEmptyIffAllWhitespace(v.s); |Trim(v.s)| == 0)
  }

  /** JS `n < 0`; every comparison with NaN is false. */
  predicate LessThanZero(n: JsNumber) {
    match n
    case Integral(i) => i < 0
    case Fractional(negative) => negative
    case NaN => false
    case Infinity(negative) => negative
  }

  /** JS `n % 1`: zero for integers, the fraction otherwise, NaN for NaN and the infinities. */
  function ModOne(n: JsNumber): JsNumber {
    match n
    case Integral(_) => Integral(0)
    case Fractional(negative) => Fractional(negative)
    case NaN => NaN
    case Infinity(_) => NaN
  }

  /** JS `m !== 0` (NaN is unequal to everything, -0 equals 0). */
  predicate NotZero(m: JsNumber) {
    !(m.Integral? && m.i == 0)
  }

  /**
    `typeof value !== "number" || value < 0 || value % 1 !== 0`: a value passes
    exactly when it is a number with no fractional part that is at least zero.
    NaN and both infinities fail because their `% 1` is NaN.
   */
  function IsInvalidInteger(v: JsValue): (invalid: bool)
    ensures !invalid <==> NonNegativeInteger(v)
  {
    !v.Num? || LessThanZero(v.n) || NotZero(ModOne(v.n))
  }

  // ---------------------------------------------------------------------------
  // A backtracking matcher for the character-class fragments both patterns use
  // ---------------------------------------------------------------------------

  datatype CharClass =
    | Digit              // \d
    | Lower              // [a-z]
    | Upper              // [A-Z]
    | AsciiAlnum         // [a-zA-Z0-9]
    | AnyButLineBreak    // .  (without the s flag)

  predicate InClass(c: char, k: CharClass) {
    match k
    case Digit => '0' <= c <= '9'
    case Lower => 'a' <= c <= 'z'
    case Upper => 'A' <= c <= 'Z'
    case AsciiAlnum => ('0' <= c <= '9') || ('a' <= c <= 'z') || ('A' <= c <= 'Z')
    case AnyButLineBreak => !IsLineTerminator(c)
  }

  predicate AllInClass(s: string, from: nat, k: CharClass)
    requires from <= |s|
  {
    forall i :: from <= i < |s| ==> InClass(s[i], k)
  }

  predicate NoLineBreak(s: string) {
    forall i :: 0 <= i < |s| ==> !IsLineTerminator(s[i])
  }

  predicate Contains(s: string, k: CharClass) {
    exists i :: 0 <= i < |s| && InClass(s[i], k)
  }

  function Dec(n: nat): nat {
    if n == 0 then 0 else n - 1
  }

  /**
    `K{lo,hi}` followed by the end of input `$`, tried at `pos`: take one more
    character of the class while the upper bound allows (greedy), and if that
    path fails, stop here, which needs the lower bound met and the input
    exhausted.
   */
  function RepeatThenEnd(s: string, pos: nat, k: CharClass, lo: nat, hi: nat): bool
    requires pos <= |s|
    decreases hi
  {
    (hi > 0 && pos < |s| && InClass(s[pos], k) && RepeatThenEnd(s, pos + 1, k, Dec(lo), hi - 1))
    || (lo == 0 && pos == |s|)
  }

  /** `K{lo,hi}` with nothing after it: the greedy path, or stop once the lower bound is met. */
  function Repeat(s: string, pos: nat, k: CharClass, lo: nat, hi: nat): bool
    requires pos <= |s|
    decreases hi
  {
    (hi > 0 && pos < |s| && InClass(s[pos], k) && Repeat(s, pos + 1, k, Dec(lo), hi - 1))
    || lo == 0
  }

  /** The lookahead `(?=.*K)` at `pos`: scan forward over non-line-break characters until one of class K. */
  function LookaheadFinds(s: string, pos: nat, k: CharClass): bool
    requires pos <= |s|
    decreases |s| - pos
  {
    pos < |s| && (InClass(s[pos], k) || (!IsLineTerminator(s[pos]) && LookaheadFinds(s, pos + 1, k)))
  }

  lemma {:induction false} RepeatThenEndMeaning(s: string, pos: nat, k: CharClass, lo: nat, hi: nat)
    requires pos <= |s| && lo <= hi
    ensures RepeatThenEnd(s, pos, k, lo, hi) <==> lo <= |s| - pos <= hi && AllInClass(s, pos, k)
    decreases hi
  {
    if hi > 0 && pos < |s| {
      RepeatThenEndMeaning(s, pos + 1, k, Dec(lo), hi - 1);
    }
  }

  lemma {:induction false} RepeatMeaning(s: string, pos: nat, k: CharClass, lo: nat, hi: nat)
    requires pos <= |s| && lo <= hi
    ensures Repeat(s, pos, k, lo, hi) <==> lo <= RunLength(s, pos, k)
    decreases hi
  {
    if hi > 0 && pos < |s| && InClass(s[pos], k) {
      RepeatMeaning(s, pos + 1, k, Dec(lo), hi - 1);
    }
  }

  /** The number of consecutive characters of class K starting at `pos`. */
  function RunLength(s: string, pos: nat, k: CharClass): (n: nat)
    requires pos <= |s|
    decreases |s| - pos
  {
    if pos < |s| && InClass(s[pos], k) then 1 + RunLength(s, pos + 1, k) else 0
  }

  lemma {:induction false} RunLengthBound(s: string, pos: nat, k: CharClass)
    requires pos <= |s|
    ensures RunLength(s, pos, k) <= |s| - pos
    ensures AllInClass(s, pos, k) ==> RunLength(s, pos, k) == |s| - pos
    decreases |s| - pos
  {
    if pos < |s| {
      RunLengthBound(s, pos + 1, k);
    }
  }

  lemma {:induction false} LookaheadMeaning(s: string, pos: nat, k: CharClass)
    requires pos <= |s| && NoLineBreak(s)
    requires k != AnyButLineBreak
    ensures LookaheadFinds(s, pos, k) <==> exists j :: pos <= j < |s| && InClass(s[j], k)
    decreases |s| - pos
  {
    if pos < |s| {
      LookaheadMeaning(s, pos + 1, k);
      if LookaheadFinds(s, pos + 1, k) {
        var j :| pos + 1 <= j < |s| && InClass(s[j], k);
        assert pos <= j;
      }
    }
  }

  /** Characters added after the scanned text never make a lookahead fail. */
  lemma {:induction false} LookaheadExtends(s: string, t: string, pos: nat, k: CharClass)
    requires pos <= |s|
    requires LookaheadFinds(s, pos, k)
    ensures LookaheadFinds(s + t, pos, k)
    decreases |s| - pos
  {
    assert (s + t)[pos] == s[pos];
    if !InClass(s[pos], k) {
      LookaheadExtends(s, t, pos + 1, k);
    }
  }

  lemma {:induction false} RunLengthExtends(s: string, t: string, pos: nat, k: CharClass)
    requires pos <= |s|
    ensures RunLength(s, pos, k) <= RunLength(s + t, pos, k)
    decreases |s| - pos
  {
    if pos < |s| {
      assert (s + t)[pos] == s[pos];
      RunLengthExtends(s, t, pos + 1, k);
    }
  }

  // ---------------------------------------------------------------------------
  // isValidName: /^[a-zA-Z0-9]{2,10}$/.test(value)
  // ---------------------------------------------------------------------------

  /** The anchored name pattern: 2 to 10 characters, every one an ASCII letter or digit. */
  function IsValidName(s: string): (ok: bool)
    ensures ok <==> 2 <= |s| <= 10 && forall i :: 0 <= i < |s| ==> InClass(s[i], AsciiAlnum)
  {
    RepeatThenEndMeaning(s, 0, AsciiAlnum, 2, 10);
    RepeatThenEnd(s, 0, AsciiAlnum, 2, 10)
  }

  /** A valid name is a valid string in the sense of isInvalidString. */
  lemma ValidNameIsValidString(s: string)
    requires IsValidName(s)
    ensures !IsInvalidString(Str(s))
  {
    assert InClass(s[0], AsciiAlnum);
    assert !IsJsWhitespace(s[0]);
  }

  // ---------------------------------------------------------------------------
  // isValidPassword: /(?=.*\d)(?=.*[a-z])(?=.*[A-Z]).{8,16}/.test(value)
  // ---------------------------------------------------------------------------

  /** The three lookaheads followed by `.{8,16}`, tried at one start position. */
  predicate PasswordMatchesAt(s: string, pos: nat)
    requires pos <= |s|
  {
    && LookaheadFinds(s, pos, Digit)
    && LookaheadFinds(s, pos, Lower)
    && LookaheadFinds(s, pos, Upper)
    && Repeat(s, pos, AnyButLineBreak, 8, 16)
  }

  /** An unanchored `test`: try every start position from `pos` on, left to right. */
  function SearchFrom(s: string, pos: nat): bool
    requires pos <= |s|
    decreases |s| - pos
  {
    PasswordMatchesAt(s, pos) || (pos < |s| && SearchFrom(s, pos + 1))
  }

  /** The password pattern as written: unanchored, so only a lower length bound survives. */
  function IsValidPassword(s: string): bool {
    SearchFrom(s, 0)
  }

  lemma {:induction false} SearchFromMeaning(s: string, pos: nat)
    requires pos <= |s|
    ensures SearchFrom(s, pos) <==> exists q :: pos <= q <= |s| && PasswordMatchesAt(s, q)
    decreases |s| - pos
  {
    if pos < |s| {
      SearchFromMeaning(s, pos + 1);
      if SearchFrom(s, pos + 1) {
        var q :| pos + 1 <= q <= |s| && PasswordMatchesAt(s, q);
        assert pos <= q;
      }
    }
  }

  /**
    For text without line breaks the pattern holds exactly when there are at
    least 8 characters among which a digit, a lower-case and an upper-case
    ASCII letter. The `16` of `{8,16}` bounds nothing.
   */
  lemma PasswordMeaning(s: string)
    requires NoLineBreak(s)
    ensures IsValidPassword(s) <==>
      |s| >= 8 && Contains(s, Digit) && Contains(s, Lower) && Contains(s, Upper)
  {
    SearchFromMeaning(s, 0);
    RunLengthBound(s, 0, AnyButLineBreak);
    RepeatMeaning(s, 0, AnyButLineBreak, 8, 16);
    LookaheadMeaning(s, 0, Digit);
    LookaheadMeaning(s, 0, Lower);
    LookaheadMeaning(s, 0, Upper);
    if IsValidPassword(s) {
      var q :| 0 <= q <= |s| && PasswordMatchesAt(s, q);
      RunLengthBound(s, q, AnyButLineBreak);
      RepeatMeaning(s, q, AnyButLineBreak, 8, 16);
      LookaheadMeaning(s, q, Digit);
      LookaheadMeaning(s, q, Lower);
      LookaheadMeaning(s, q, Upper);
    }
  }

  /** Appending anything to an accepted password keeps it accepted. */
  lemma {:induction false} PasswordExtends(s: string, t: string)
    requires IsValidPassword(s)
    ensures IsValidPassword(s + t)
  {
    SearchFromMeaning(s, 0);
    var q :| 0 <= q <= |s| && PasswordMatchesAt(s, q);
    LookaheadExtends(s, t, q, Digit);
    LookaheadExtends(s, t, q, Lower);
    LookaheadExtends(s, t, q, Upper);
    RepeatMeaning(s, q, AnyButLineBreak, 8, 16);
    RepeatMeaning(s + t, q, AnyButLineBreak, 8, 16);
    RunLengthExtends(s, t, q, AnyButLineBreak);
    assert PasswordMatchesAt(s + t, q);
    SearchFromMeaning(s + t, 0);
  }

  lemma LookaheadsAtStart(s: string)
    ensures NoLineBreak(s) ==>
      && (LookaheadFinds(s, 0, Digit) <==> Contains(s, Digit))
      && (LookaheadFinds(s, 0, Lower) <==> Contains(s, Lower))
      && (LookaheadFinds(s, 0, Upper) <==> Contains(s, Upper))
  {
    if NoLineBreak(s) {
      LookaheadMeaning(s, 0, Digit);
      LookaheadMeaning(s, 0, Lower);
      LookaheadMeaning(s, 0, Upper);
    }
  }

  /** The pattern with `^` and `$` added, as the 8 to 16 character rule intends. */
  function IsValidPasswordAnchored(s: string): (ok: bool)
    ensures ok <==>
      8 <= |s| <= 16 && NoLineBreak(s) && Contains(s, Digit) && Contains(s, Lower) && Contains(s, Upper)
  {
    RepeatThenEndMeaning(s, 0, AnyButLineBreak, 8, 16);
    LookaheadsAtStart(s);
    && LookaheadFinds(s, 0, Digit)
    && LookaheadFinds(s, 0, Lower)
    && LookaheadFinds(s, 0, Upper)
    && RepeatThenEnd(s, 0, AnyButLineBreak, 8, 16)
  }

  /** A 17-character password that the pattern as written accepts and the anchored one refuses. */
  lemma PasswordLongerThanSixteenAccepted()
    ensures var w := "Abcdefgh123456789";
      |w| == 17 && IsValidPassword(w) && !IsValidPasswordAnchored(w)
  {
    var w := "Abcdefgh123456789";
    assert NoLineBreak(w);
    assert InClass(w[0], Upper) && InClass(w[1], Lower) && InClass(w[8], Digit);
    PasswordMeaning(w);
  }
}
