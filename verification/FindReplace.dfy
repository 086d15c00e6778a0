/** The scanning part of FindReplaceResponseFilter and what it is meant to compute. */
module FindReplaceScan {

  const FIND := "REPLACE_THIS_STRING"
  const REPLACE := "This is the replaced string!"

  type Offset = n: nat | n < |FIND|

  // find_match_offset_ and replace_count_.
  datatype Scan = Scan(matched: Offset, count: nat)

  function Decimal(n: nat): (s: string)
    ensures s != "" && forall c :: c in s ==> '0' <= c <= '9'
  {
    var digit := ['0' + (n % 10) as char];
    if n < 10 then digit else Decimal(n / 10) + digit
  }

  // The text written for the n-th match.
  function Replacement(n: nat): (s: string)
    ensures s != "" && '0' <= s[0] <= '9'
  {
    var digits := Decimal(n);
    assert digits[0] in digits;
    digits + ". " + REPLACE
  }

  // The number that a string of decimal digits denotes.
  function ValueOf(digits: string): nat {
    if digits == "" then 0
    else
      var n := |digits| - 1;
      10 * ValueOf(digits[..n]) + if '0' <= digits[n] <= '9' then digits[n] as nat - '0' as nat else 0
  }

  lemma {:induction false} DecimalReadsBack(n: nat)
    ensures ValueOf(Decimal(n)) == n
    ensures n > 0 ==> Decimal(n)[0] != '0'
    decreases n
  {
    var digit := ['0' + (n % 10) as char];
    assert digit[..0] == "" && ValueOf(digit) == n % 10;
    if n >= 10 {
      DecimalReadsBack(n / 10);
      var d := Decimal(n / 10) + digit;
      assert d[..|d| - 1] == Decimal(n / 10) && d[|d| - 1] == digit[0];
    }
  }

  // One character of input: the text written, and the state afterwards.
  function StepOut(s: Scan, c: char): string {
    if c == FIND[s.matched] then
      if s.matched + 1 == |FIND| then Replacement(s.count + 1) else ""
    else FIND[..s.matched] + [c]
  }

  function StepNext(s: Scan, c: char): Scan {
    if c == FIND[s.matched] then
      if s.matched + 1 == |FIND| then Scan(0, s.count + 1) else Scan(s.matched + 1, s.count)
    else Scan(0, s.count)
  }

  function Emit(s: Scan, xs: string): string
    decreases |xs|
  {
    if xs == "" then "" else StepOut(s, xs[0]) + Emit(StepNext(s, xs[0]), xs[1..])
  }

  function After(s: Scan, xs: string): Scan
    decreases |xs|
  {
    if xs == "" then s else After(StepNext(s, xs[0]), xs[1..])
  }

  lemma {:induction false} EmitAppend(s: Scan, xs: string, ys: string)
    ensures Emit(s, xs + ys) == Emit(s, xs) + Emit(After(s, xs), ys)
    ensures After(s, xs + ys) == After(After(s, xs), ys)
    decreases |xs|
  {
    if xs == "" {
      assert xs + ys == ys;
    } else {
      assert (xs + ys)[1..] == xs[1..] + ys;
      EmitAppend(StepNext(s, xs[0]), xs[1..], ys);
    }
  }

  // Everything the scan has written once the unfinished match is written as well.
  function Flushed(s: Scan, xs: string): string {
    Emit(s, xs) + FIND[..After(s, xs).matched]
  }

  // What a match is replaced by, in its own words: the number of the match in decimal notation
  // without leading zeros, and the replacement.
  lemma {:induction false} MatchIsNumbered(n: nat) returns (digits: string)
    ensures digits != "" && digits[0] != '0' && forall c :: c in digits ==> '0' <= c <= '9'
    ensures ValueOf(digits) == n + 1
    ensures Emit(Scan(0, n), "REPLACE_THIS_STRING") == digits + ". This is the replaced string!"
    ensures After(Scan(0, n), "REPLACE_THIS_STRING") == Scan(0, n + 1)
  {
    hide Emit, After, Decimal, ValueOf, Replacement;
    digits := Decimal(n + 1);
    DecimalReadsBack(n + 1);
    WholeMatch(n);
    ReplacementText(n + 1);
  }

  lemma WholeMatch(n: nat)
    ensures Emit(Scan(0, n), "REPLACE_THIS_STRING") == Replacement(n + 1)
    ensures After(Scan(0, n), "REPLACE_THIS_STRING") == Scan(0, n + 1)
  {
    hide Emit, After, Replacement;
    var k := |FIND| - 1;
    MatchingPrefix(n, k);
    OneStep(Scan(k, n), FIND[k]);
    EmitAppend(Scan(0, n), FIND[..k], [FIND[k]]);
    assert FIND[..k] + [FIND[k]] == FIND;
  }

  lemma ReplacementText(n: nat)
    ensures Replacement(n) == Decimal(n) + ". This is the replaced string!"
  {
    hide Decimal;
    Regroup(Decimal(n), ". ", REPLACE);
  }

  // ---------- the reference: replace all instances, left to right ----------

  predicate OccursAt(xs: string, i: nat) {
    i + |FIND| <= |xs| && xs[i..i + |FIND|] == FIND
  }

  function ReplaceAll(xs: string, count: nat): string
    decreases |xs|
  {
    if xs == "" then ""
    else if OccursAt(xs, 0) then Replacement(count + 1) + ReplaceAll(xs[|FIND|..], count + 1)
    else [xs[0]] + ReplaceAll(xs[1..], count)
  }

  lemma {:induction false} SkipTo(xs: string, count: nat, j: nat)
    requires j <= |xs| && forall i :: 0 <= i < j ==> !OccursAt(xs, i)
    ensures ReplaceAll(xs, count) == xs[..j] + ReplaceAll(xs[j..], count)
    decreases j
  {
    if j > 0 {
      forall i | 0 <= i < j - 1 ensures !OccursAt(xs[1..], i) {
        assert !OccursAt(xs, i + 1);
        if i + |FIND| <= |xs[1..]| { assert xs[1..][i..i + |FIND|] == xs[i + 1..i + 1 + |FIND|]; }
      }
      assert !OccursAt(xs, 0);
      SkipTo(xs[1..], count, j - 1);
      assert xs[..j] == [xs[0]] + xs[1..][..j - 1] && xs[1..][j - 1..] == xs[j..];
    } else {
      assert xs[..0] == "" && xs[0..] == xs;
    }
  }

  // ---------- when the scan meets the reference ----------

  // How far xs agrees with the find string, given that it agrees up to k.
  function Agree(xs: string, k: nat): (n: nat)
    requires k <= |FIND| && k <= |xs| && xs[..k] == FIND[..k]
    ensures k <= n <= |FIND| && n <= |xs| && xs[..n] == FIND[..n]
    ensures n == |FIND| || n == |xs| || xs[n] != FIND[n]
    decreases |FIND| - k
  {
    if k < |FIND| && k < |xs| && xs[k] == FIND[k] then
      assert xs[..k + 1] == xs[..k] + [xs[k]] && FIND[..k + 1] == FIND[..k] + [FIND[k]];
      Agree(xs, k + 1)
    else k
  }

  lemma AgreementFacts(xs: string, n: nat)
    requires n <= |FIND| && n <= |xs| && xs[..n] == FIND[..n]
    requires n == |FIND| || n == |xs| || xs[n] != FIND[n]
    ensures n == |FIND| <==> OccursAt(xs, 0)
    ensures forall i :: 0 <= i < n ==> xs[i] == FIND[i]
  {
    forall i | 0 <= i < n ensures xs[i] == FIND[i] { assert xs[..n][i] == FIND[..n][i]; }
  }

  // Length of the attempt that starts at the front of xs.
  function Attempt(xs: string): (n: nat)
    ensures n <= |FIND| && n <= |xs| && xs[..n] == FIND[..n]
    ensures n == |FIND| || n == |xs| || xs[n] != FIND[n]
    ensures n == |FIND| <==> OccursAt(xs, 0)
    ensures forall i :: 0 <= i < n ==> xs[i] == FIND[i]
  {
    var n := Agree(xs, 0);
    AgreementFacts(xs, n);
    n
  }

  // The scan gives an attempt up at the first character that does not match and goes on after that
  // character.  An input is clean if no instance of the find string starts inside an attempt that
  // was given up, the mismatching character included.
  predicate Clean(xs: string)
    decreases |xs|
  {
    var n := Attempt(xs);
    if n == |FIND| then Clean(xs[n..])
    else if n == |xs| then true
    else (forall i :: 1 <= i <= n ==> !OccursAt(xs, i)) && Clean(xs[n + 1..])
  }

  lemma {:induction false} MatchingPrefix(count: nat, j: nat)
    requires j < |FIND|
    ensures Emit(Scan(0, count), FIND[..j]) == "" && After(Scan(0, count), FIND[..j]) == Scan(j, count)
    decreases j
  {
    if j > 0 {
      MatchingPrefix(count, j - 1);
      assert FIND[..j] == FIND[..j - 1] + [FIND[j - 1]];
      EmitAppend(Scan(0, count), FIND[..j - 1], [FIND[j - 1]]);
      OneStep(Scan(j - 1, count), FIND[j - 1]);
    }
  }

  lemma OneStep(s: Scan, c: char)
    ensures Emit(s, [c]) == StepOut(s, c) && After(s, [c]) == StepNext(s, c)
  {
    assert [c][1..] == "";
    assert Emit(StepNext(s, c), "") == "";
    assert StepOut(s, c) + "" == StepOut(s, c);
  }

  lemma Regroup(a: string, b: string, c: string)
    ensures (a + b) + c == a + (b + c)
  {
  }

  lemma CutAt(s: Scan, xs: string, n: nat)
    requires n <= |xs|
    ensures Flushed(s, xs) == Emit(s, xs[..n]) + Flushed(After(s, xs[..n]), xs[n..])
  {
    hide Emit, After;
    EmitAppend(s, xs[..n], xs[n..]);
    assert xs == xs[..n] + xs[n..];
    Regroup(Emit(s, xs[..n]), Emit(After(s, xs[..n]), xs[n..]), FIND[..After(s, xs).matched]);
  }

  // What one attempt contributes: a full match,
  lemma FullAttempt(xs: string, count: nat)
    requires Attempt(xs) == |FIND|
    ensures Flushed(Scan(0, count), xs) == Replacement(count + 1) + Flushed(Scan(0, count + 1), xs[|FIND|..])
  {
    hide Emit, After, Replacement, Flushed, OccursAt;
    var s, n := Scan(0, count), |FIND|;
    MatchingPrefix(count, n - 1);
    OneStep(Scan(n - 1, count), FIND[n - 1]);
    EmitAppend(s, FIND[..n - 1], [FIND[n - 1]]);
    assert FIND[..n - 1] + [FIND[n - 1]] == FIND[..n] == xs[..n];
    CutAt(s, xs, n);
  }

  // a match cut short by the end of the input,
  lemma UnfinishedAttempt(xs: string, count: nat)
    requires Attempt(xs) == |xs| < |FIND|
    ensures Flushed(Scan(0, count), xs) == xs
  {
    MatchingPrefix(count, |xs|);
    assert xs == xs[..|xs|] == FIND[..|xs|];
  }

  // or a match given up at a character that does not fit.
  lemma FailedAttempt(xs: string, count: nat)
    requires Attempt(xs) < |FIND| && Attempt(xs) < |xs|
    ensures var n := Attempt(xs);
      Flushed(Scan(0, count), xs) == xs[..n + 1] + Flushed(Scan(0, count), xs[n + 1..])
  {
    hide Emit, After, Replacement, Flushed, OccursAt;
    var s, n := Scan(0, count), Attempt(xs);
    MatchingPrefix(count, n);
    OneStep(Scan(n, count), xs[n]);
    EmitAppend(s, xs[..n], [xs[n]]);
    assert xs[..n] + [xs[n]] == xs[..n + 1];
    CutAt(s, xs, n + 1);
  }

  lemma {:induction false} CleanIsReplaceAll(xs: string, count: nat)
    requires Clean(xs)
    ensures Flushed(Scan(0, count), xs) == ReplaceAll(xs, count)
    decreases |xs|
  {
    hide Flushed, Replacement;
    var n := Attempt(xs);
    if n == |FIND| {
      FullAttempt(xs, count);
      CleanIsReplaceAll(xs[n..], count + 1);
    } else if n == |xs| {
      UnfinishedAttempt(xs, count);
      SkipTo(xs, count, n);
      assert xs[..n] == xs && xs[n..] == "";
    } else {
      FailedAttempt(xs, count);
      SkipTo(xs, count, n + 1);
      CleanIsReplaceAll(xs[n + 1..], count);
    }
  }

  lemma CancelPrefix(p: string, a: string, b: string)
    requires p + a <= p + b
    ensures a <= b
  {
    assert a == (p + a)[|p|..] && b == (p + b)[|p|..];
    forall i | 0 <= i < |a| ensures a[i] == b[i] { assert (p + a)[|p| + i] == (p + b)[|p| + i]; }
  }

  // Where an instance is swallowed, the reference has a digit and the scan an 'R'.
  lemma SwallowedDiffers(xs: string, count: nat, i: nat)
    requires Attempt(xs) < |FIND| && Attempt(xs) < |xs| && 1 <= i <= Attempt(xs) && OccursAt(xs, i)
    ensures !(ReplaceAll(xs, count) <= Flushed(Scan(0, count), xs))
  {
    var n := Attempt(xs);
    var j := FirstOccurrence(xs, i);
    FailedAttempt(xs, count);
    SkipTo(xs, count, j);
    StartsWithDigit(xs, count, j);
    hide ReplaceAll, Flushed, OccursAt, Attempt;
    assert xs[..n + 1][j] == xs[j];
  }

  lemma StartsWithDigit(xs: string, count: nat, j: nat)
    requires OccursAt(xs, j)
    ensures xs[j] == FIND[0] == 'R'
    ensures var r := ReplaceAll(xs[j..], count); r != "" && '0' <= r[0] <= '9'
  {
    hide Replacement;
    assert xs[j..][0..|FIND|] == xs[j..j + |FIND|];
    assert xs[j] == xs[j..j + |FIND|][0];
  }

  // On an input that is not clean the scan does not even write an extension of the reference.
  lemma {:induction false} PrefixMeansClean(xs: string, count: nat)
    requires ReplaceAll(xs, count) <= Flushed(Scan(0, count), xs)
    ensures Clean(xs)
    decreases |xs|
  {
    var n := Attempt(xs);
    if n == |FIND| {
      FullAttempt(xs, count);
      CancelPrefix(Replacement(count + 1), ReplaceAll(xs[n..], count + 1), Flushed(Scan(0, count + 1), xs[n..]));
      PrefixMeansClean(xs[n..], count + 1);
    } else if n < |xs| {
      FailedAttempt(xs, count);
      forall i | 1 <= i <= n ensures !OccursAt(xs, i) {
        if OccursAt(xs, i) { SwallowedDiffers(xs, count, i); }
      }
      SkipTo(xs, count, n + 1);
      CancelPrefix(xs[..n + 1], ReplaceAll(xs[n + 1..], count), Flushed(Scan(0, count), xs[n + 1..]));
      PrefixMeansClean(xs[n + 1..], count);
    }
  }

  lemma {:induction false} FirstOccurrence(xs: string, i: nat) returns (j: nat)
    requires OccursAt(xs, i)
    ensures j <= i && OccursAt(xs, j) && forall k :: 0 <= k < j ==> !OccursAt(xs, k)
    decreases i
  {
    j := i;
    if k :| 0 <= k < i && OccursAt(xs, k) {
      j := FirstOccurrence(xs, k);
    }
  }

  // The scan replaces all instances exactly on clean inputs.
  lemma {:induction false} ReplacesAllIffClean(xs: string, count: nat)
    ensures Flushed(Scan(0, count), xs) == ReplaceAll(xs, count) <==> Clean(xs)
  {
    if Clean(xs) {
      CleanIsReplaceAll(xs, count);
    } else if Flushed(Scan(0, count), xs) == ReplaceAll(xs, count) {
      PrefixMeansClean(xs, count);
    }
  }

  lemma StrayStart(xs: string)
    requires xs == [FIND[0]] + FIND
    ensures OccursAt(xs, 1) && Attempt(xs) == 1
  {
    assert xs[1..1 + |FIND|] == FIND;
    assert xs[0] == FIND[0] && xs[1] == FIND[0] != FIND[1];
  }

  // An instance after a stray 'R' is not replaced.
  lemma {:induction false} MissedInstance(xs: string, count: nat)
    requires xs == [FIND[0]] + FIND
    ensures OccursAt(xs, 1) && !Clean(xs) && Flushed(Scan(0, count), xs) != ReplaceAll(xs, count)
  {
    hide Emit, After, Replacement, ReplaceAll, Flushed, OccursAt, Attempt;
    StrayStart(xs);
    ReplacesAllIffClean(xs, count);
  }
}
