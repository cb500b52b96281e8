/**
  Merging the tracks of one group of simultaneous notes: every track tag
  `clean<N>:` is removed from each token, repeated rests collapse to the first
  one, and the result is ordered by string number (`s<N>:`), notes without a
  string number last, equal keys in their original order.
*/
module TrackMerge {
  import opened Tokens

  const TrackPrefix: string := "clean"
  const Rest: Token := "rest"

  // ---------------------------------------------------------------------
  // re.sub(r"clean\d+:", "", token)

  /** The length of a track tag `clean` + digits + `:` at the start of `s`,
      or 0 when `s` does not start with one. */
  function TrackTagLength(s: string): (n: nat)
    ensures n == 0 || (7 <= n <= |s| && StartsWith(s, TrackPrefix) && s[n - 1] == ':' && AllDigits(s[5..n - 1]))
  {
    if StartsWith(s, TrackPrefix) && DigitRun(s[5..]) > 0 && 5 + DigitRun(s[5..]) < |s| && s[5 + DigitRun(s[5..])] == ':'
    then
      assert s[5..][..DigitRun(s[5..])] == s[5..5 + DigitRun(s[5..])];
      6 + DigitRun(s[5..])
    else 0
  }

  /** Every track tag removed, scanning left to right and resuming after each
      removed tag, as `re.sub` does. */
  function RemoveTrackTags(s: string): (r: string)
    ensures |r| <= |s|
  {
    if s == [] then []
    else if TrackTagLength(s) > 0 then RemoveTrackTags(s[TrackTagLength(s)..])
    else [s[0]] + RemoveTrackTags(s[1..])
  }

  /** `s` holds no track tag anywhere. */
  predicate NoTrackTag(s: string) {
    forall i :: 0 <= i < |s| ==> TrackTagLength(s[i..]) == 0
  }

  /** Text without a track tag is left as it is. */
  lemma {:induction false} RemoveTrackTagsNoTag(s: string)
    requires NoTrackTag(s)
    ensures RemoveTrackTags(s) == s
  {
    if s != [] {
      assert TrackTagLength(s[0..]) == 0 && s[0..] == s;
      assert NoTrackTag(s[1..]) by {
        forall i | 0 <= i < |s| - 1 ensures TrackTagLength(s[1..][i..]) == 0 {
          assert s[1..][i..] == s[i + 1..];
        }
      }
      RemoveTrackTagsNoTag(s[1..]);
    }
  }

  /** Every tag at the head of the text is found: `clean`, one or more digits
      (leading zeros allowed) and `:`. */
  lemma TrackTagLengthOfTag(ds: string, rest: string)
    requires |ds| > 0 && AllDigits(ds)
    ensures TrackTagLength(TrackPrefix + ds + ":" + rest) == 6 + |ds|
  {
    var s := TrackPrefix + ds + ":" + rest;
    assert s[..5] == TrackPrefix;
    assert s[5..] == ds + (":" + rest);
    DigitRunOfDigits(ds, ":" + rest);
    assert s[5 + |ds|] == ':';
  }

  /** A tagged token `clean<digits>:<t>` loses its tag and nothing else, when
      `t` holds no further tag. */
  lemma RemoveTrackTagOfDigits(ds: string, t: string)
    requires |ds| > 0 && AllDigits(ds)
    requires NoTrackTag(t)
    ensures RemoveTrackTags(TrackPrefix + ds + ":" + t) == t
  {
    var s := TrackPrefix + ds + ":" + t;
    TrackTagLengthOfTag(ds, t);
    assert s[6 + |ds|..] == t;
    RemoveTrackTagsNoTag(t);
  }

  /** The same for a tag written as the tokenizer writes it, `clean<N>:`. */
  lemma RemoveTrackTagOfTagged(n: nat, t: string)
    requires NoTrackTag(t)
    ensures RemoveTrackTags(TrackPrefix + Decimal(n) + ":" + t) == t
  {
    RemoveTrackTagOfDigits(Decimal(n), t);
  }

  /** The two lemmas above for every token at once: untagged text is kept,
      and a leading tag is dropped when the rest holds no tag. */
  lemma RemoveTrackTagsAll()
    ensures forall s :: NoTrackTag(s) ==> RemoveTrackTags(s) == s
    ensures forall s :: TrackTagLength(s) > 0 && NoTrackTag(s[TrackTagLength(s)..]) ==> RemoveTrackTags(s) == s[TrackTagLength(s)..]
  {
    forall s | NoTrackTag(s) ensures RemoveTrackTags(s) == s {
      RemoveTrackTagsNoTag(s);
    }
    forall s | TrackTagLength(s) > 0 && NoTrackTag(s[TrackTagLength(s)..])
      ensures RemoveTrackTags(s) == s[TrackTagLength(s)..]
    {
      RemoveTrackTagsNoTag(s[TrackTagLength(s)..]);
    }
  }

  // ---------------------------------------------------------------------
  // extract_s_number: re.search(r"s(\d+):", s)

  /** The number of the leftmost `s<digits>:` in `s`, or `None` (which sorts
      after every number, as `float('inf')` does). */
  function NoteKey(s: string): (k: Option<nat>)
    decreases |s|
  {
    if s == [] then None
    else if s[0] == 's' && 0 < DigitRun(s[1..]) && 1 + DigitRun(s[1..]) < |s| && s[1 + DigitRun(s[1..])] == ':'
    then Some(DecimalValue(s[1..][..DigitRun(s[1..])]))
    else NoteKey(s[1..])
  }

  /** A string number `s<digits>:` starts at index `i` of `s`. */
  predicate NumberAt(s: string, i: nat)
    requires i < |s|
  {
    s[i] == 's' && 0 < DigitRun(s[i + 1..]) && i + 1 + DigitRun(s[i + 1..]) < |s| && s[i + 1 + DigitRun(s[i + 1..])] == ':'
  }

  /** The value of the digits of the string number at `i`. */
  function NumberValueAt(s: string, i: nat): nat
    requires i < |s| && NumberAt(s, i)
  {
    DecimalValue(s[i + 1..][..DigitRun(s[i + 1..])])
  }

  /** Dropping the first character shifts every string number by one. */
  lemma NumberAtShift(s: string, i: nat)
    requires i + 1 < |s|
    ensures NumberAt(s[1..], i) <==> NumberAt(s, i + 1)
    ensures NumberAt(s, i + 1) ==> NumberValueAt(s[1..], i) == NumberValueAt(s, i + 1)
  {
    assert s[1..][i + 1..] == s[i + 2..];
  }

  /** `NoteKey` is the search for the leftmost string number: `None` exactly
      when there is none, and otherwise the value of the first one. */
  lemma {:induction false} NoteKeySpec(s: string)
    ensures NoteKey(s).None? <==> forall i: nat :: i < |s| ==> !NumberAt(s, i)
    ensures NoteKey(s).Some? ==>
      exists i: nat :: i < |s| && NumberAt(s, i) && NoteKey(s).value == NumberValueAt(s, i) && forall j: nat :: j < i ==> !NumberAt(s, j)
    decreases |s|
  {
    if s != [] {
      if NumberAt(s, 0) {
        assert s[1..] == s[0 + 1..];
        assert NoteKey(s).value == NumberValueAt(s, 0);
      } else {
        assert NoteKey(s) == NoteKey(s[1..]);
        NoteKeySpec(s[1..]);
        forall i: nat | i + 1 < |s| ensures NumberAt(s[1..], i) <==> NumberAt(s, i + 1) {
          NumberAtShift(s, i);
        }
        if NoteKey(s).None? {
          forall i: nat | i < |s| ensures !NumberAt(s, i) {
            if i > 0 {
              assert !NumberAt(s[1..], i - 1);
            }
          }
        } else {
          var i: nat :| i < |s[1..]| && NumberAt(s[1..], i) && NoteKey(s[1..]).value == NumberValueAt(s[1..], i) &&
            forall j: nat :: j < i ==> !NumberAt(s[1..], j);
          NumberAtShift(s, i);
          forall j: nat | j < i + 1 ensures !NumberAt(s, j) {
            if j > 0 {
              assert !NumberAt(s[1..], j - 1);
            }
          }
          assert NumberAt(s, i + 1) && NoteKey(s).value == NumberValueAt(s, i + 1);
        }
      }
    }
  }

  /** A text in which no `s` starts a string number contributes nothing. */
  lemma {:induction false} NoteKeyConcat(p: string, s: string)
    requires forall i :: 0 <= i < |p| ==> p[i] != 's'
    ensures NoteKey(p + s) == NoteKey(s)
  {
    if p != [] {
      assert (p + s)[1..] == p[1..] + s;
      NoteKeyConcat(p[1..], s);
    } else {
      assert p + s == s;
    }
  }

  /** The key of a note on string `n`, as the tokenizer writes it. */
  lemma NoteKeyOfNote(n: nat, rest: string)
    ensures NoteKey("note:s" + Decimal(n) + ":" + rest) == Some(n)
  {
    var ds := Decimal(n);
    var tail := "s" + ds + ":" + rest;
    assert "note:s" + ds + ":" + rest == "note:" + tail;
    NoteKeyConcat("note:", tail);
    assert tail[1..] == ds + (":" + rest);
    DigitRunOfDigits(ds, ":" + rest);
    assert tail[1 + |ds|] == ':';
    assert tail[1..][..|ds|] == ds;
    DecimalRoundTrip(n);
  }

  /** A rest has no string number, so it sorts last. */
  lemma NoteKeyOfRest()
    ensures NoteKey(Rest) == None
  {
    assert Rest[1..] == "est" && Rest[2..] == "st" && Rest[3..] == "t" && Rest[4..] == [];
    assert DigitRun(Rest[3..]) == 0;
  }

  // ---------------------------------------------------------------------
  // sorted(..., key=extract_s_number)

  /** Strict order of keys: numbers in increasing order, then `None`. */
  predicate KeyLt(a: Option<nat>, b: Option<nat>) {
    a.Some? && (b.None? || a.value < b.value)
  }

  predicate KeyLe(a: Option<nat>, b: Option<nat>) {
    !KeyLt(b, a)
  }

  predicate SortedByKey(s: seq<Token>) {
    forall i, j :: 0 <= i < j < |s| ==> KeyLe(NoteKey(s[i]), NoteKey(s[j]))
  }

  /** The tokens of `s` whose key is `k`, in their order in `s`.  A sort is
      stable exactly when it keeps every such subsequence. */
  function WithKey(s: seq<Token>, k: Option<nat>): (r: seq<Token>)
    ensures forall t :: t in r <==> t in s && NoteKey(t) == k
  {
    if s == [] then []
    else (if NoteKey(s[0]) == k then [s[0]] else []) + WithKey(s[1..], k)
  }

  lemma {:induction false} WithKeyConcat(a: seq<Token>, b: seq<Token>, k: Option<nat>)
    ensures WithKey(a + b, k) == WithKey(a, k) + WithKey(b, k)
  {
    if a == [] {
      assert a + b == b;
    } else {
      assert (a + b)[0] == a[0] && (a + b)[1..] == a[1..] + b;
      var h: seq<Token> := if NoteKey(a[0]) == k then [a[0]] else [];
      assert WithKey(a + b, k) == h + WithKey(a[1..] + b, k);
      WithKeyConcat(a[1..], b, k);
      ConcatAssoc(h, WithKey(a[1..], k), WithKey(b, k));
    }
  }

  /** `x` placed after every token whose key is not above its own. */
  function Insert(x: Token, s: seq<Token>): seq<Token> {
    if s == [] then [x]
    else if KeyLt(NoteKey(x), NoteKey(s[0])) then [x] + s
    else [s[0]] + Insert(x, s[1..])
  }

  /** The first token of a sorted sequence has the least key, and the rest of
      it is sorted. */
  lemma SortedHead(s: seq<Token>)
    requires SortedByKey(s) && s != []
    ensures forall t :: t in s ==> KeyLe(NoteKey(s[0]), NoteKey(t))
    ensures SortedByKey(s[1..])
  {
    forall t | t in s ensures KeyLe(NoteKey(s[0]), NoteKey(t)) {
      var i :| 0 <= i < |s| && s[i] == t;
      if i > 0 {
        assert KeyLe(NoteKey(s[0]), NoteKey(s[i]));
      }
    }
    forall i, j | 0 <= i < j < |s[1..]| ensures KeyLe(NoteKey(s[1..][i]), NoteKey(s[1..][j])) {
      assert s[1..][i] == s[i + 1] && s[1..][j] == s[j + 1];
    }
  }

  /** A token whose key is at most every key of a sorted sequence may go in front. */
  lemma SortedCons(x: Token, s: seq<Token>)
    requires SortedByKey(s)
    requires forall t :: t in s ==> KeyLe(NoteKey(x), NoteKey(t))
    ensures SortedByKey([x] + s)
  {
    var r := [x] + s;
    forall i, j | 0 <= i < j < |r| ensures KeyLe(NoteKey(r[i]), NoteKey(r[j])) {
      assert r[j] == s[j - 1];
      if i > 0 {
        assert r[i] == s[i - 1];
      } else {
        assert s[j - 1] in s;
      }
    }
  }

  /** No token with key `k` means no key class `k`. */
  lemma WithKeyEmpty(s: seq<Token>, k: Option<nat>)
    requires forall t :: t in s ==> NoteKey(t) != k
    ensures WithKey(s, k) == []
  {
  }

  lemma {:induction false} InsertMultiset(x: Token, s: seq<Token>)
    ensures multiset(Insert(x, s)) == multiset(s) + multiset{x}
  {
    if s != [] && !KeyLt(NoteKey(x), NoteKey(s[0])) {
      InsertMultiset(x, s[1..]);
      assert s == [s[0]] + s[1..];
    }
  }

  lemma {:induction false} InsertSorted(x: Token, s: seq<Token>)
    requires SortedByKey(s)
    ensures SortedByKey(Insert(x, s))
  {
    if s == [] {
    } else if KeyLt(NoteKey(x), NoteKey(s[0])) {
      SortedHead(s);
      SortedCons(x, s);
    } else {
      SortedHead(s);
      InsertSorted(x, s[1..]);
      InsertMultiset(x, s[1..]);
      var rest := Insert(x, s[1..]);
      forall t | t in rest ensures KeyLe(NoteKey(s[0]), NoteKey(t)) {
        assert t in multiset(rest);
        if t != x {
          assert t in s[1..];
        }
      }
      SortedCons(s[0], rest);
    }
  }

  lemma {:induction false} InsertWithKey(x: Token, s: seq<Token>, k: Option<nat>)
    requires SortedByKey(s)
    ensures WithKey(Insert(x, s), k) == WithKey(s, k) + (if NoteKey(x) == k then [x] else [])
  {
    if s == [] {
      assert WithKey([x], k) == (if NoteKey(x) == k then [x] else []) + WithKey([], k);
    } else if KeyLt(NoteKey(x), NoteKey(s[0])) {
      var r := [x] + s;
      assert r[0] == x && r[1..] == s;
      if NoteKey(x) == k {
        SortedHead(s);
        WithKeyEmpty(s, k);
      } else {
        assert WithKey(r, k) == [] + WithKey(s, k);
        assert WithKey(s, k) + [] == WithKey(s, k);
      }
    } else {
      SortedHead(s);
      InsertWithKey(x, s[1..], k);
      var r := [s[0]] + Insert(x, s[1..]);
      assert r[0] == s[0] && r[1..] == Insert(x, s[1..]);
      ConcatAssoc(if NoteKey(s[0]) == k then [s[0]] else [], WithKey(s[1..], k), if NoteKey(x) == k then [x] else []);
    }
  }

  lemma InsertProperties(x: Token, s: seq<Token>)
    requires SortedByKey(s)
    ensures multiset(Insert(x, s)) == multiset(s) + multiset{x}
    ensures SortedByKey(Insert(x, s))
    ensures forall k :: WithKey(Insert(x, s), k) == WithKey(s, k) + (if NoteKey(x) == k then [x] else [])
  {
    InsertMultiset(x, s);
    InsertSorted(x, s);
    forall k ensures WithKey(Insert(x, s), k) == WithKey(s, k) + (if NoteKey(x) == k then [x] else []) {
      InsertWithKey(x, s, k);
    }
  }

  /** The tokens of `s` ordered by key; tokens with equal keys keep their
      order. */
  function SortNotes(s: seq<Token>): (r: seq<Token>)
    ensures multiset(r) == multiset(s)
    ensures SortedByKey(r)
    ensures forall k :: WithKey(r, k) == WithKey(s, k)
  {
    if s == [] then []
    else
      var p := s[..|s| - 1];
      var x := s[|s| - 1];
      InsertProperties(x, SortNotes(p));
      assert s == p + [x];
      WithKeySnoc(p, x);
      Insert(x, SortNotes(p))
  }

  lemma WithKeySnoc(p: seq<Token>, x: Token)
    ensures forall k :: WithKey(p + [x], k) == WithKey(p, k) + (if NoteKey(x) == k then [x] else [])
  {
    forall k ensures WithKey(p + [x], k) == WithKey(p, k) + (if NoteKey(x) == k then [x] else []) {
      WithKeyConcat(p, [x], k);
      assert [x][1..] == [];
    }
  }

  /** A sorted sequence is fixed by its key classes: two orderings sorted by key
      with the same tokens in each key class, in the same order, are equal. */
  lemma {:induction false} StableSortUnique(r1: seq<Token>, r2: seq<Token>)
    requires SortedByKey(r1) && SortedByKey(r2)
    requires forall k :: WithKey(r1, k) == WithKey(r2, k)
    ensures r1 == r2
    decreases |r1| + |r2|
  {
    if r1 == [] || r2 == [] {
      if r1 != [] {
        HeadClass(r1);
      } else if r2 != [] {
        HeadClass(r2);
      }
    } else {
      SortedHead(r1);
      SortedHead(r2);
      var a := NoteKey(r1[0]);
      assert a == NoteKey(r2[0]) by {
        assert r2[0] in WithKey(r2, NoteKey(r2[0]));
        assert r2[0] in WithKey(r1, NoteKey(r2[0]));
        assert r1[0] in WithKey(r1, a);
        assert r1[0] in WithKey(r2, a);
      }
      HeadsAgree(r1, r2, a);
      StableSortUnique(r1[1..], r2[1..]);
      assert r1 == [r1[0]] + r1[1..] && r2 == [r2[0]] + r2[1..];
    }
  }

  /** The key class of the first token is not empty. */
  lemma HeadClass(r: seq<Token>)
    requires r != []
    ensures WithKey(r, NoteKey(r[0])) != []
  {
    assert r[0] in WithKey(r, NoteKey(r[0]));
  }

  /** Two sequences whose first tokens share the key `a` and whose key classes
      agree have the same first token, and their tails have agreeing key classes. */
  lemma HeadsAgree(r1: seq<Token>, r2: seq<Token>, a: Option<nat>)
    requires r1 != [] && r2 != [] && NoteKey(r1[0]) == a && NoteKey(r2[0]) == a
    requires forall k :: WithKey(r1, k) == WithKey(r2, k)
    ensures r1[0] == r2[0]
    ensures forall k :: WithKey(r1[1..], k) == WithKey(r2[1..], k)
  {
    WithKeyTail(r1, a);
    WithKeyTail(r2, a);
    forall k ensures WithKey(r1[1..], k) == WithKey(r2[1..], k) {
      WithKeyTail(r1, k);
      WithKeyTail(r2, k);
    }
  }

  /** The key class `k` of a non-empty sequence, split at its first token. */
  lemma WithKeyTail(r: seq<Token>, k: Option<nat>)
    requires r != []
    ensures NoteKey(r[0]) == k ==> WithKey(r, k) != [] && WithKey(r, k)[0] == r[0] && WithKey(r[1..], k) == WithKey(r, k)[1..]
    ensures NoteKey(r[0]) != k ==> WithKey(r[1..], k) == WithKey(r, k)
  {
    if NoteKey(r[0]) == k {
      assert WithKey(r, k) == [r[0]] + WithKey(r[1..], k);
    } else {
      assert WithKey(r, k) == [] + WithKey(r[1..], k);
    }
  }

  /** `sorted` is a stable sort, so its result is `SortNotes`: any ordering of
      `s` sorted by key that keeps the order within each key class is it. */
  lemma SortNotesUnique(s: seq<Token>, r: seq<Token>)
    requires SortedByKey(r)
    requires forall k :: WithKey(r, k) == WithKey(s, k)
    ensures r == SortNotes(s)
  {
    StableSortUnique(r, SortNotes(s));
  }

  // ---------------------------------------------------------------------
  // The rest-collapsing loop of merge_tracks_and_prune

  /** The list the loop builds from the cleaned tokens `c`: every token that is
      not a rest, and one rest where the first rest was. */
  function Prune(c: seq<Token>): (r: seq<Token>)
    ensures forall t :: t in r ==> t in c
    ensures Rest in r <==> Rest in c
  {
    if c == [] then []
    else
      var p := c[..|c| - 1];
      var x := c[|c| - 1];
      if x == Rest then
        (if Rest in p then Prune(p) else Prune(p) + [Rest])
      else Prune(p) + [x]
  }

  /** The tokens of `c` that are not rests. */
  function DropRests(c: seq<Token>): (r: seq<Token>)
    ensures Rest !in r
  {
    if c == [] then []
    else DropRests(c[..|c| - 1]) + (if c[|c| - 1] == Rest then [] else [c[|c| - 1]])
  }

  /** Without a rest, the loop copies its input. */
  lemma {:induction false} PruneNoRest(c: seq<Token>)
    requires Rest !in c
    ensures Prune(c) == c
  {
    if c != [] {
      var p := c[..|c| - 1];
      assert c == p + [c[|c| - 1]];
      PruneNoRest(p);
    }
  }

  /** With a first rest at `f`, the loop keeps everything before it, the rest,
      and every later token that is not a rest. */
  lemma {:induction false} PruneShape(c: seq<Token>, f: nat)
    requires f < |c| && c[f] == Rest && Rest !in c[..f]
    ensures Prune(c) == c[..f] + [Rest] + DropRests(c[f + 1..])
  {
    var p := c[..|c| - 1];
    var x := c[|c| - 1];
    assert c == p + [x];
    if f == |c| - 1 {
      assert p == c[..f];
      PruneNoRest(p);
      assert c[f + 1..] == [];
    } else {
      assert p[f] == Rest && p[..f] == c[..f];
      PruneShape(p, f);
      assert Rest in p;
      assert c[f + 1..] == p[f + 1..] + [x];
      assert c[f + 1..][..|c[f + 1..]| - 1] == p[f + 1..];
      if x != Rest {
        ConcatAssoc(c[..f] + [Rest], DropRests(p[f + 1..]), [x]);
      } else {
        assert DropRests(c[f + 1..]) == DropRests(p[f + 1..]) + [];
      }
    }
  }

  /** The loop emits at most one rest, and one exactly when its input has one. */
  lemma {:induction false} PruneRestCount(c: seq<Token>)
    ensures multiset(Prune(c))[Rest] == if Rest in c then 1 else 0
  {
    if c != [] {
      var p := c[..|c| - 1];
      assert c == p + [c[|c| - 1]];
      PruneRestCount(p);
    }
  }

  /** As a multiset, the loop emits the cleaned tokens that are not rests, plus
      one rest when there was any. */
  lemma {:induction false} PruneMultiset(c: seq<Token>)
    ensures multiset(Prune(c)) == multiset(DropRests(c)) + if Rest in c then multiset{Rest} else multiset{}
  {
    if c != [] {
      var p := c[..|c| - 1];
      assert c == p + [c[|c| - 1]];
      PruneMultiset(p);
    }
  }

  // ---------------------------------------------------------------------
  // merge_tracks_and_prune

  /** `t` is what cleaning makes of `s` in the two common cases: `s` itself
      when it holds no tag, and what follows a leading tag when nothing after
      it is a tag. */
  predicate TagDropped(s: string, t: string) {
    (NoTrackTag(s) ==> t == s) &&
    (TrackTagLength(s) > 0 && NoTrackTag(s[TrackTagLength(s)..]) ==> t == s[TrackTagLength(s)..])
  }

  /** Each token with its track tags removed: a token without a tag stays as
      it is, and a token `clean<N>:<t>` whose `t` holds no further tag becomes
      `t`. */
  function Cleaned(notes: seq<Token>): (r: seq<Token>)
    ensures |r| == |notes|
    ensures forall i :: 0 <= i < |notes| ==> r[i] == RemoveTrackTags(notes[i])
    ensures forall i {:trigger TagDropped(notes[i], r[i])} :: 0 <= i < |notes| ==> TagDropped(notes[i], r[i])
  {
    RemoveTrackTagsAll();
    seq(|notes|, i requires 0 <= i < |notes| => RemoveTrackTags(notes[i]))
  }

  /** What `merge_tracks_and_prune` returns. */
  function Merged(notes: seq<Token>): seq<Token> {
    SortNotes(Prune(Cleaned(notes)))
  }

  method MergeTracksAndPrune(notes: seq<Token>) returns (merged: seq<Token>)
    ensures merged == Merged(notes)
    ensures SortedByKey(merged)
    ensures multiset(merged) == multiset(Prune(Cleaned(notes)))
    ensures multiset(merged)[Rest] == if Rest in Cleaned(notes) then 1 else 0
  {
    var processed: seq<Token> := [];
    var hasRest := false;
    ghost var cleaned := Cleaned(notes);
    for i := 0 to |notes|
      invariant processed == Prune(cleaned[..i])
      invariant hasRest == (Rest in cleaned[..i])
    {
      var cleanedToken := RemoveTrackTags(notes[i]);
      assert cleaned[..i + 1] == cleaned[..i] + [cleanedToken];
      assert cleaned[..i + 1][..i] == cleaned[..i];
      if cleanedToken == Rest {
        if !hasRest {
          processed := processed + [Rest];
          hasRest := true;
        }
      } else {
        processed := processed + [cleanedToken];
      }
    }
    assert cleaned[..|notes|] == cleaned;
    PruneRestCount(cleaned);
    merged := SortNotes(processed);
  }
}
