/**
  Repeat expansion: a single left-to-right scan that replaces each span
  `measure:repeat_open … measure:repeat_close:<count>` by `count` copies of
  the tokens between the two markers and drops both markers.  Regions do not
  nest: the first token starting with `measure:repeat_close` after an open
  ends the region.  An open with no close after it, or whose close carries no
  count, is passed through as an ordinary token.
*/
module Repeats {
  import opened Tokens

  const RepeatOpen: string := "measure:repeat_open"
  const RepeatClose: string := "measure:repeat_close"
  const CountPrefix: string := "measure:repeat_close:"

  predicate IsOpen(t: Token) {
    StartsWith(t, RepeatOpen)
  }

  predicate IsClose(t: Token) {
    StartsWith(t, RepeatClose)
  }

  /** `re.match(r"measure:repeat_close:(\d+)", t)`: the count after the prefix,
      read from the longest run of digits there; whatever follows the digits is
      ignored.  `None` when no digit follows the prefix. */
  function RepeatCount(t: Token): (c: Option<nat>)
    ensures c.Some? ==> IsClose(t)
  {
    if StartsWith(t, CountPrefix) && DigitRun(t[|CountPrefix|..]) > 0 then
      var digits := t[|CountPrefix|..][..DigitRun(t[|CountPrefix|..])];
      PrefixOfPrefix(t, CountPrefix, RepeatClose);
      Some(DecimalValue(digits))
    else None
  }

  /** A count is read exactly when a digit follows `measure:repeat_close:`;
      otherwise the close marker carries no count (the bad-count fallback). */
  lemma RepeatCountSome(t: Token)
    ensures RepeatCount(t).Some? <==> StartsWith(t, CountPrefix) && |t| > |CountPrefix| && IsDigit(t[|CountPrefix|])
  {
  }

  /** Digits after the prefix, possibly with leading zeros and followed by text
      that does not start with a digit, are read as their decimal value. */
  lemma RepeatCountOfDigits(ds: string, junk: string)
    requires |ds| > 0 && AllDigits(ds)
    requires junk == [] || !IsDigit(junk[0])
    ensures RepeatCount(CountPrefix + ds + junk) == Some(DecimalValue(ds))
  {
    StringConcatAssoc(CountPrefix, ds, junk);
    RepeatCountRead(ds + junk, ds, junk);
  }

  /** Reading the count of a close marker whose text after the prefix is `u`. */
  lemma RepeatCountRead(u: string, ds: string, junk: string)
    requires u == ds + junk && |ds| > 0 && AllDigits(ds)
    requires junk == [] || !IsDigit(junk[0])
    ensures RepeatCount(CountPrefix + u) == Some(DecimalValue(ds))
  {
    SplitAfterPrefix(CountPrefix, u);
    DigitRunOfDigits(ds, junk);
    assert u[..|ds|] == ds;
  }

  /** A close marker written with a count, possibly followed by text that does not
      start with a digit, is read back as that count. */
  lemma RepeatCountOfMarker(count: nat, junk: string)
    requires junk == [] || !IsDigit(junk[0])
    ensures RepeatCount(CountPrefix + Decimal(count) + junk) == Some(count)
  {
    RepeatCountOfDigits(Decimal(count), junk);
    DecimalRoundTrip(count);
  }

  /** A token that starts with a close marker is never an open marker. */
  lemma CloseIsNotOpen(t: Token)
    requires IsClose(t)
    ensures !IsOpen(t)
  {
    assert t[15] == RepeatClose[15] != RepeatOpen[15];
  }

  /** The index of the first token at or after `from` that starts with
      `measure:repeat_close`, if there is one: the inner `while` of the scan. */
  function FirstClose(s: seq<Token>, from: nat): (r: Option<nat>)
    decreases |s| - from
    ensures r.Some? ==> from <= r.value < |s| && IsClose(s[r.value])
  {
    if from >= |s| then None
    else if IsClose(s[from]) then Some(from)
    else FirstClose(s, from + 1)
  }

  /** No token between `from` and the one `FirstClose` finds is a close marker,
      and when it finds none there is none. */
  lemma {:induction false} FirstCloseIsFirst(s: seq<Token>, from: nat)
    ensures FirstClose(s, from).Some? ==> forall k :: from <= k < FirstClose(s, from).value ==> !IsClose(s[k])
    ensures FirstClose(s, from).None? ==> forall k :: from <= k < |s| ==> !IsClose(s[k])
    decreases |s| - from
  {
    if from < |s| && !IsClose(s[from]) {
      FirstCloseIsFirst(s, from + 1);
    }
  }

  /** Conversely, `FirstClose` finds the first close marker. */
  lemma {:induction false} FirstCloseAt(s: seq<Token>, from: nat, j: nat)
    requires from <= j < |s| && IsClose(s[j])
    requires forall k :: from <= k < j ==> !IsClose(s[k])
    ensures FirstClose(s, from) == Some(j)
    decreases j - from
  {
    if from < j {
      FirstCloseAt(s, from + 1, j);
    }
  }

  /** With no close marker at or after `from`, `FirstClose` finds none. */
  lemma {:induction false} FirstCloseNone(s: seq<Token>, from: nat)
    requires forall k :: from <= k < |s| ==> !IsClose(s[k])
    ensures FirstClose(s, from).None?
    decreases |s| - from
  {
    if from < |s| {
      FirstCloseNone(s, from + 1);
    }
  }

  /** `count` copies of `inner`, one after the other. */
  function Repeat(inner: seq<Token>, count: nat): seq<Token> {
    if count == 0 then [] else Repeat(inner, count - 1) + inner
  }

  /** What the scan emits from position `i` of `s` on: the outer `while` of
      `expand_repeats`, one iteration per call. */
  function ExpandFrom(s: seq<Token>, i: nat): seq<Token>
    decreases |s| - i
  {
    if i >= |s| then []
    else if !IsOpen(s[i]) then [s[i]] + ExpandFrom(s, i + 1)
    else match FirstClose(s, i + 1)
      case None => [s[i]] + ExpandFrom(s, i + 1)
      case Some(j) =>
        match RepeatCount(s[j])
        case None => [s[i]] + ExpandFrom(s, i + 1)
        case Some(count) => Repeat(s[i + 1..j], count) + ExpandFrom(s, j + 1)
  }

  /** The expansion of a whole token list. */
  function Expand(s: seq<Token>): seq<Token> {
    ExpandFrom(s, 0)
  }

  /** One iteration of the scan, in each of its cases. */
  lemma ExpandStepKeeps(s: seq<Token>, i: nat)
    requires i < |s|
    requires !IsOpen(s[i]) || FirstClose(s, i + 1).None? || RepeatCount(s[FirstClose(s, i + 1).value]).None?
    ensures ExpandFrom(s, i) == [s[i]] + ExpandFrom(s, i + 1)
  {
  }

  lemma ExpandStepRegion(s: seq<Token>, i: nat, j: nat, count: nat)
    requires i < |s| && IsOpen(s[i])
    requires FirstClose(s, i + 1) == Some(j) && RepeatCount(s[j]) == Some(count)
    ensures ExpandFrom(s, i) == Repeat(s[i + 1..j], count) + ExpandFrom(s, j + 1)
  {
  }

  // ---------------------------------------------------------------------
  // Properties

  /** Copies concatenate: `a` copies followed by `b` copies are `a + b` copies. */
  lemma {:induction false} RepeatAdd(inner: seq<Token>, a: nat, b: nat)
    ensures Repeat(inner, a + b) == Repeat(inner, a) + Repeat(inner, b)
    decreases b
  {
    if b == 0 {
      assert Repeat(inner, a) + [] == Repeat(inner, a);
    } else {
      RepeatAdd(inner, a, b - 1);
    }
  }

  /** `count` copies hold `count * |inner|` tokens. */
  lemma {:induction false} RepeatLength(inner: seq<Token>, count: nat)
    ensures |Repeat(inner, count)| == count * |inner|
  {
    if count > 0 {
      RepeatLength(inner, count - 1);
      assert |Repeat(inner, count)| == (count - 1) * |inner| + |inner|;
    }
  }

  /** Every copy holds only tokens of `inner`. */
  lemma {:induction false} RepeatTokens(inner: seq<Token>, count: nat)
    ensures forall t :: t in Repeat(inner, count) ==> t in inner
  {
    if count > 0 {
      RepeatTokens(inner, count - 1);
    }
  }

  /** A non-empty slice is its first token followed by the rest. */
  lemma SliceCons(s: seq<Token>, i: nat, k: nat)
    requires i < k <= |s|
    ensures s[i..k] == [s[i]] + s[i + 1..k]
  {
  }

  /** A slice of `s[a..b]` lies inside the suffix `s[i..]` when `i <= a`. */
  lemma InSuffix(s: seq<Token>, i: nat, a: nat, b: nat)
    requires i <= a <= b <= |s|
    ensures forall t :: t in s[a..b] ==> t in s[i..]
  {
    assert s[i..] == s[i..a] + s[a..b] + s[b..];
  }

  /** The expansion emits only tokens that occur in its input: markers that are
      dropped are never replaced by anything new. */
  lemma {:induction false} ExpandTokens(s: seq<Token>, i: nat)
    ensures forall t :: t in ExpandFrom(s, i) ==> t in s[i..]
    decreases |s| - i
  {
    if i < |s| {
      if IsOpen(s[i]) && FirstClose(s, i + 1).Some? && RepeatCount(s[FirstClose(s, i + 1).value]).Some? {
        var j := FirstClose(s, i + 1).value;
        ExpandTokens(s, j + 1);
        ExpandTokensRegion(s, i, j, RepeatCount(s[j]).value);
      } else {
        ExpandTokens(s, i + 1);
        ExpandTokensKeep(s, i);
      }
    }
  }

  /** The expansion from `i` on emits only tokens of `s[i..]`. */
  predicate EmitsFromSuffix(s: seq<Token>, i: nat) {
    forall t :: t in ExpandFrom(s, i) ==> t in s[i..]
  }

  /** The step of ExpandTokens for a region. */
  lemma ExpandTokensRegion(s: seq<Token>, i: nat, j: nat, count: nat)
    requires i < |s| && IsOpen(s[i])
    requires FirstClose(s, i + 1) == Some(j) && RepeatCount(s[j]) == Some(count)
    requires EmitsFromSuffix(s, j + 1)
    ensures EmitsFromSuffix(s, i)
  {
    ExpandStepRegion(s, i, j, count);
    RepeatTokens(s[i + 1..j], count);
    InSuffix(s, i, i + 1, j);
    InSuffix(s, i, j + 1, |s|);
    assert s[j + 1..|s|] == s[j + 1..];
  }

  /** The step of ExpandTokens for a token emitted unchanged. */
  lemma ExpandTokensKeep(s: seq<Token>, i: nat)
    requires i < |s|
    requires !IsOpen(s[i]) || FirstClose(s, i + 1).None? || RepeatCount(s[FirstClose(s, i + 1).value]).None?
    requires EmitsFromSuffix(s, i + 1)
    ensures EmitsFromSuffix(s, i)
  {
    ExpandStepKeeps(s, i);
    InSuffix(s, i, i + 1, |s|);
    assert s[i + 1..|s|] == s[i + 1..] && s[i] in s[i..];
  }

  /** A run of tokens none of which is an open marker passes through unchanged
      and in order. */
  lemma {:induction false} ExpandPassThrough(s: seq<Token>, i: nat, k: nat)
    requires i <= k <= |s|
    requires forall m :: i <= m < k ==> !IsOpen(s[m])
    ensures ExpandFrom(s, i) == s[i..k] + ExpandFrom(s, k)
    decreases k - i
  {
    if i < k {
      ExpandPassThrough(s, i + 1, k);
      ExpandStepKeeps(s, i);
      SliceCons(s, i, k);
      ConcatAssoc([s[i]], s[i + 1..k], ExpandFrom(s, k));
    } else {
      assert s[i..k] == [];
    }
  }

  /** With no open marker anywhere, expansion is the identity. */
  lemma ExpandNoMarkers(s: seq<Token>)
    requires forall m :: 0 <= m < |s| ==> !IsOpen(s[m])
    ensures Expand(s) == s
  {
    ExpandPassThrough(s, 0, |s|);
    assert s[0..|s|] == s && ExpandFrom(s, |s|) == [];
    assert s + [] == s;
  }

  /** A well-formed region: an open marker at `i`, tokens none of which starts
      with `measure:repeat_close` (open markers among them are ordinary content),
      and a close marker with a count at `j`.  The region becomes `count` copies
      of the inner tokens (none for a count of 0) and the scan resumes after the
      close marker. */
  lemma ExpandRegion(s: seq<Token>, i: nat, j: nat, count: nat)
    requires i < j < |s| && IsOpen(s[i])
    requires forall k :: i < k < j ==> !IsClose(s[k])
    requires RepeatCount(s[j]) == Some(count)
    ensures ExpandFrom(s, i) == Repeat(s[i + 1..j], count) + ExpandFrom(s, j + 1)
  {
    FirstCloseAt(s, i + 1, j);
    ExpandStepRegion(s, i, j, count);
  }

  /** An open marker with no close marker after it is emitted unchanged and the
      scan continues with the next token. */
  lemma ExpandUnclosed(s: seq<Token>, i: nat)
    requires i < |s| && IsOpen(s[i])
    requires forall k :: i < k < |s| ==> !IsClose(s[k])
    ensures ExpandFrom(s, i) == [s[i]] + ExpandFrom(s, i + 1)
  {
    FirstCloseNone(s, i + 1);
    ExpandStepKeeps(s, i);
  }

  /** No open marker lies strictly between `i` and `j`. */
  predicate NoOpenBetween(s: seq<Token>, i: nat, j: nat)
    requires j <= |s|
  {
    forall k :: i < k < j ==> !IsOpen(s[k])
  }

  /** An open marker whose first close marker has no count is emitted unchanged
      and the scan continues with the next token, so the close marker is not
      consumed there; when no open marker lies between them, the close marker
      is then emitted as an ordinary token and the scan goes on after it. */
  lemma ExpandBadCount(s: seq<Token>, i: nat, j: nat)
    requires i < j < |s| && IsOpen(s[i])
    requires forall k :: i < k < j ==> !IsClose(s[k])
    requires IsClose(s[j]) && RepeatCount(s[j]).None?
    ensures ExpandFrom(s, i) == [s[i]] + ExpandFrom(s, i + 1)
    ensures NoOpenBetween(s, i, j) ==> ExpandFrom(s, i) == s[i..j + 1] + ExpandFrom(s, j + 1)
  {
    BadCountKeeps(s, i, j);
    if NoOpenBetween(s, i, j) {
      BadCountPasses(s, i, j);
    }
  }

  /** The second half of ExpandBadCount: with no open marker before the close
      marker, everything up to and including it is emitted unchanged. */
  lemma BadCountPasses(s: seq<Token>, i: nat, j: nat)
    requires i < j < |s| && IsOpen(s[i])
    requires forall k :: i < k < j ==> !IsClose(s[k])
    requires IsClose(s[j]) && RepeatCount(s[j]).None?
    requires NoOpenBetween(s, i, j)
    ensures ExpandFrom(s, i) == s[i..j + 1] + ExpandFrom(s, j + 1)
  {
    BadCountKeeps(s, i, j);
    NoOpenThrough(s, i, j);
    var k := j + 1;
    KeepThenPass(s, i, k);
    assert s[i..j + 1] == s[i..k];
  }

  /** No open marker from just after `i` up to and including the close
      marker at `j`. */
  lemma NoOpenThrough(s: seq<Token>, i: nat, j: nat)
    requires i < j < |s| && IsClose(s[j])
    requires NoOpenBetween(s, i, j)
    ensures forall m :: i + 1 <= m < j + 1 ==> !IsOpen(s[m])
  {
    CloseIsNotOpen(s[j]);
  }

  /** The first half of ExpandBadCount: the open marker is emitted alone. */
  lemma BadCountKeeps(s: seq<Token>, i: nat, j: nat)
    requires i < j < |s| && IsOpen(s[i])
    requires forall k :: i < k < j ==> !IsClose(s[k])
    requires IsClose(s[j]) && RepeatCount(s[j]).None?
    ensures ExpandFrom(s, i) == [s[i]] + ExpandFrom(s, i + 1)
  {
    FirstCloseAt(s, i + 1, j);
    ExpandStepKeeps(s, i);
  }

  /** A token emitted unchanged, followed by a stretch that passes through. */
  lemma KeepThenPass(s: seq<Token>, i: nat, k: nat)
    requires i < k <= |s|
    requires ExpandFrom(s, i) == [s[i]] + ExpandFrom(s, i + 1)
    requires forall m :: i + 1 <= m < k ==> !IsOpen(s[m])
    ensures ExpandFrom(s, i) == s[i..k] + ExpandFrom(s, k)
  {
    PrependPassThrough(s, i, k);
  }

  /** A token put in front of a stretch that passes through. */
  lemma PrependPassThrough(s: seq<Token>, i: nat, k: nat)
    requires i < k <= |s|
    requires forall m :: i + 1 <= m < k ==> !IsOpen(s[m])
    ensures [s[i]] + ExpandFrom(s, i + 1) == s[i..k] + ExpandFrom(s, k)
  {
    ExpandPassThrough(s, i + 1, k);
    SliceCons(s, i, k);
    ConcatAssoc([s[i]], s[i + 1..k], ExpandFrom(s, k));
  }

  // ---------------------------------------------------------------------
  // The scan

  /** The inner `while` of `expand_repeats`: the position of the first close
      marker at or after `from`, or `|tokens|` when there is none. */
  method FindClose(tokens: seq<Token>, from: nat) returns (j: nat)
    requires from <= |tokens|
    ensures from <= j <= |tokens|
    ensures FirstClose(tokens, from) == if j < |tokens| then Some(j) else None
  {
    j := from;
    while j < |tokens| && !IsClose(tokens[j])
      invariant from <= j <= |tokens|
      invariant forall k :: from <= k < j ==> !IsClose(tokens[k])
    {
      j := j + 1;
    }
    if j < |tokens| {
      FirstCloseAt(tokens, from, j);
    } else {
      FirstCloseNone(tokens, from);
    }
  }

  /** The `for _ in range(count)` loop: `count` copies of `inner` appended. */
  method AppendCopies(expanded: seq<Token>, inner: seq<Token>, count: nat) returns (r: seq<Token>)
    ensures r == expanded + Repeat(inner, count)
  {
    r := expanded;
    var c := 0;
    assert r + [] == r;
    while c < count
      invariant 0 <= c <= count
      invariant r == expanded + Repeat(inner, c)
    {
      ConcatAssoc(expanded, Repeat(inner, c), inner);
      r := r + inner;
      c := c + 1;
    }
  }

  /** `expand_repeats` */
  method ExpandRepeats(tokens: seq<Token>) returns (expanded: seq<Token>)
    ensures expanded == Expand(tokens)
  {
    expanded := [];
    var i := 0;
    var n := |tokens|;
    assert [] + Expand(tokens) == Expand(tokens);
    while i < n
      invariant 0 <= i <= n
      invariant Expand(tokens) == expanded + ExpandFrom(tokens, i)
      decreases n - i
    {
      var token := tokens[i];
      ghost var done := expanded;
      ghost var from := i;
      if IsOpen(token) {
        var j := FindClose(tokens, i + 1);
        if j >= n {
          expanded := expanded + [token];
          i := i + 1;
          ExpandStepKeeps(tokens, from);
          ConcatAssoc(done, [token], ExpandFrom(tokens, i));
          continue;
        }
        var m := RepeatCount(tokens[j]);
        if m.None? {
          expanded := expanded + [token];
          i := i + 1;
          ExpandStepKeeps(tokens, from);
          ConcatAssoc(done, [token], ExpandFrom(tokens, i));
          continue;
        }
        var count := m.value;
        expanded := AppendCopies(expanded, tokens[i + 1..j], count);
        i := j + 1;
        ExpandStepRegion(tokens, from, j, count);
        ConcatAssoc(done, Repeat(tokens[from + 1..j], count), ExpandFrom(tokens, i));
      } else {
        expanded := expanded + [token];
        i := i + 1;
        ExpandStepKeeps(tokens, from);
        ConcatAssoc(done, [token], ExpandFrom(tokens, i));
      }
    }
    assert expanded + [] == expanded;
  }
}
