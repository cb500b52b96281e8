/**
  The reversible positional filter for non-instrumental tokens: `Strip`
  splits a token list into the instrumental tokens (those starting with
  `note:`) and a map from index to every other token; `Restore` rebuilds the
  full list from the two.  Restore follows Python's list indexing: a negative
  key counts from the end, a key outside the list raises `IndexError`, and so
  does running out of instrumental tokens while filling the empty slots.
*/
module StripRestore {
  import opened Tokens

  datatype Error = IndexError
  datatype Result<+T> = Ok(value: T) | Err(error: Error)

  const InstrumentalPrefix: string := "note:"

  /** `is_instrumental`: only the literal prefix `note:` counts. */
  predicate IsInstrumental(t: Token): (b: bool)
    ensures b <==> exists rest :: t == InstrumentalPrefix + rest
  {
    assert StartsWith(t, InstrumentalPrefix) ==> t == InstrumentalPrefix + t[|InstrumentalPrefix|..];
    StartsWith(t, InstrumentalPrefix)
  }

  // ---------------------------------------------------------------------
  // Strip

  /** The instrumental tokens of `ts`, in their original order. */
  function PureOf(ts: seq<Token>): (r: seq<Token>)
    ensures |r| <= |ts|
    ensures forall t :: t in r ==> t in ts && IsInstrumental(t)
  {
    if ts == [] then []
    else (if IsInstrumental(ts[0]) then [ts[0]] else []) + PureOf(ts[1..])
  }

  /** Every index of `ts` whose token is not instrumental, mapped to that token. */
  function RemovedOf(ts: seq<Token>): (r: map<int, Token>)
    ensures forall i :: i in r <==> 0 <= i < |ts| && !IsInstrumental(ts[i])
    ensures forall i :: i in r ==> r[i] == ts[i]
  {
    map i | 0 <= i < |ts| && !IsInstrumental(ts[i]) :: ts[i]
  }

  lemma {:induction false} PureOfSnoc(ts: seq<Token>, t: Token)
    ensures PureOf(ts + [t]) == PureOf(ts) + (if IsInstrumental(t) then [t] else [])
  {
    if ts != [] {
      assert (ts + [t])[1..] == ts[1..] + [t];
      PureOfSnoc(ts[1..], t);
    }
  }

  lemma RemovedOfSnoc(ts: seq<Token>, t: Token)
    ensures RemovedOf(ts + [t]) ==
      if IsInstrumental(t) then RemovedOf(ts) else RemovedOf(ts)[|ts| := t]
  {
    var a := RemovedOf(ts + [t]);
    var b := if IsInstrumental(t) then RemovedOf(ts) else RemovedOf(ts)[|ts| := t];
    forall i | 0 <= i < |ts| ensures (ts + [t])[i] == ts[i] { }
    assert (ts + [t])[|ts|] == t;
    assert a.Keys == b.Keys;
    assert forall i :: i in a ==> a[i] == b[i];
  }

  /** `strip_non_instrumental` */
  method Strip(tokens: seq<Token>) returns (pure: seq<Token>, removed: map<int, Token>)
    ensures pure == PureOf(tokens)
    ensures removed == RemovedOf(tokens)
    ensures |pure| + |removed| == |tokens|
    ensures forall i :: 0 <= i < |tokens| ==> (i in removed <==> !IsInstrumental(tokens[i]))
    ensures forall k :: k in removed ==> 0 <= k < |tokens| && removed[k] == tokens[k]
  {
    pure, removed := [], map[];
    var idx := 0;
    while idx < |tokens|
      invariant 0 <= idx <= |tokens|
      invariant pure == PureOf(tokens[..idx])
      invariant removed == RemovedOf(tokens[..idx])
    {
      var tok := tokens[idx];
      assert tokens[..idx + 1] == tokens[..idx] + [tok];
      PureOfSnoc(tokens[..idx], tok);
      RemovedOfSnoc(tokens[..idx], tok);
      if IsInstrumental(tok) {
        pure := pure + [tok];
      } else {
        removed := removed[idx := tok];
      }
      idx := idx + 1;
    }
    assert tokens[..idx] == tokens;
    StripPartitions(tokens);
  }

  /** Strip splits the indices: the pure tokens and the removed ones add up to the whole. */
  lemma {:induction false} StripPartitions(ts: seq<Token>)
    ensures |PureOf(ts)| + |RemovedOf(ts)| == |ts|
  {
    if ts != [] {
      var init := ts[..|ts| - 1];
      var last := ts[|ts| - 1];
      assert ts == init + [last];
      StripPartitions(init);
      PureOfSnoc(init, last);
      RemovedOfSnoc(init, last);
      assert |init| !in RemovedOf(init);
    }
  }

  // ---------------------------------------------------------------------
  // Restore

  /** Python's index normalisation: a negative index counts from the end. */
  function Slot(k: int, n: nat): int {
    if k < 0 then k + n else k
  }

  /** Every key is a valid index of a list of length `n` (or `reconstructed[idx]` raises). */
  predicate KeysInRange(removed: map<int, Token>, n: nat) {
    forall k :: k in removed ==> -(n as int) <= k < n
  }

  /** Two keys, `k` and `k - n`, name the same slot of a list of length `n`. */
  predicate SharesSlot(removed: map<int, Token>, n: nat) {
    exists k :: k in removed && 0 <= k && k - n in removed
  }

  /** The list after the placement loop: `Some` where a key names the slot.
      Where two keys name one slot the non-negative one is taken; the restore
      fails in that case whichever value the slot holds. */
  function Placed(removed: map<int, Token>, n: nat): (p: seq<Option<Token>>)
    ensures |p| == n
  {
    seq(n, s =>
      if s in removed then Some(removed[s])
      else if s - n in removed then Some(removed[s - n])
      else None)
  }

  /** Some key names slot `s` of a list of length `n`. */
  predicate Named(removed: map<int, Token>, n: nat, s: int) {
    s in removed || s - n in removed
  }

  /** The slots of a list of length `n` that some key names. */
  function Occupied(removed: map<int, Token>, n: nat): set<int> {
    set s | 0 <= s < n && Named(removed, n, s)
  }

  /** The number of empty (`None`) slots. */
  function FreeSlots(p: seq<Option<Token>>): nat {
    if p == [] then 0 else (if p[0].None? then 1 else 0) + FreeSlots(p[1..])
  }

  function PrependAll(xs: seq<Token>, r: Result<seq<Token>>): Result<seq<Token>> {
    if r.Ok? then Ok(xs + r.value) else r
  }

  lemma PrependAllConcat(xs: seq<Token>, ys: seq<Token>, r: Result<seq<Token>>)
    ensures PrependAll([], r) == r
    ensures PrependAll(xs, PrependAll(ys, r)) == PrependAll(xs + ys, r)
  {
    if r.Ok? {
      assert [] + r.value == r.value;
      assert xs + (ys + r.value) == (xs + ys) + r.value;
    }
  }

  /** The fill loop: each empty slot, in ascending order, takes the next pure token;
      `pure_tokens[i_pure]` past the end raises `IndexError`. */
  function Fill(pure: seq<Token>, placed: seq<Option<Token>>): Result<seq<Token>> {
    if placed == [] then Ok([])
    else if placed[0].Some? then PrependAll([placed[0].value], Fill(pure, placed[1..]))
    else if pure == [] then Err(IndexError)
    else PrependAll([pure[0]], Fill(pure[1..], placed[1..]))
  }

  /** What `restore_non_instrumental(pure, removed)` returns or raises. */
  function RestoreSpec(pure: seq<Token>, removed: map<int, Token>): Result<seq<Token>> {
    var n := |pure| + |removed|;
    if !KeysInRange(removed, n) then Err(IndexError) else Fill(pure, Placed(removed, n))
  }

  /** The tokens of a list whose slots are all filled. */
  function Unwrap(p: seq<Option<Token>>): (r: seq<Token>)
    requires forall j :: 0 <= j < |p| ==> p[j].Some?
    ensures |r| == |p|
    ensures forall j :: 0 <= j < |p| ==> r[j] == p[j].value
  {
    if p == [] then [] else Unwrap(p[..|p| - 1]) + [p[|p| - 1].value]
  }

  lemma {:induction false} FreeSlotsAppend(a: seq<Option<Token>>, b: seq<Option<Token>>)
    ensures FreeSlots(a + b) == FreeSlots(a) + FreeSlots(b)
  {
    if a == [] {
      assert a + b == b;
    } else {
      assert (a + b)[0] == a[0];
      assert (a + b)[1..] == a[1..] + b;
      FreeSlotsAppend(a[1..], b);
    }
  }

  /** The free slots and the filled ones add up to the length of the list. */
  lemma {:induction false} FreeSlotsCount(p: seq<Option<Token>>)
    ensures FreeSlots(p) + |set s | 0 <= s < |p| && p[s].Some?| == |p|
  {
    if p != [] {
      var q := p[..|p| - 1];
      var x := p[|p| - 1];
      assert p == q + [x];
      FreeSlotsCount(q);
      FreeSlotsAppend(q, [x]);
      assert FreeSlots([x]) == (if x.None? then 1 else 0) by {
        assert [x][1..] == [];
      }
      var sq := set s | 0 <= s < |q| && q[s].Some?;
      var sp := set s | 0 <= s < |p| && p[s].Some?;
      if x.Some? {
        assert sp == sq + {|q|};
      } else {
        assert sp == sq;
      }
    }
  }

  /** Taking one key out of the map frees at most the slot it names. */
  lemma OccupiedRemove(removed: map<int, Token>, n: nat, k: int)
    requires KeysInRange(removed, n) && k in removed
    ensures Occupied(removed, n) == Occupied(removed - {k}, n) + {Slot(k, n)}
  {
    var rest := removed - {k};
    forall s | s in Occupied(removed, n)
      ensures s in Occupied(rest, n) || s == Slot(k, n)
    {
      assert Named(removed, n, s);
    }
    forall s | s in Occupied(rest, n)
      ensures s in Occupied(removed, n)
    {
      assert Named(rest, n, s);
    }
    assert Named(removed, n, Slot(k, n));
  }

  /** A key whose slot no other key names does not change whether slots are shared. */
  lemma SharesSlotRemove(removed: map<int, Token>, n: nat, k: int)
    requires KeysInRange(removed, n) && k in removed
    ensures Slot(k, n) in Occupied(removed - {k}, n) ==> SharesSlot(removed, n)
    ensures Slot(k, n) !in Occupied(removed - {k}, n) ==>
      (SharesSlot(removed, n) <==> SharesSlot(removed - {k}, n))
  {
    var rest := removed - {k};
    var s := Slot(k, n);
    if s in Occupied(rest, n) {
      assert Named(rest, n, s);
      if k >= 0 {
        assert k - n in removed;
      } else {
        assert s in removed && 0 <= s && s - n == k;
      }
    } else {
      if SharesSlot(rest, n) {
        var k' :| k' in rest && 0 <= k' && k' - n in rest;
        assert k' in removed && k' - n in removed;
      }
      if SharesSlot(removed, n) {
        var k' :| k' in removed && 0 <= k' && k' - n in removed;
        assert k' != k && k' - n != k by {
          assert Named(rest, n, k') ==> k' in Occupied(rest, n);
          assert k' < n;
        }
        assert k' in rest && k' - n in rest;
      }
    }
  }

  /** The keys name at most as many slots as there are keys, and exactly as many
      when no two keys share a slot. */
  lemma {:induction false} OccupiedCount(removed: map<int, Token>, n: nat)
    requires KeysInRange(removed, n)
    ensures |Occupied(removed, n)| <= |removed|
    ensures |Occupied(removed, n)| == |removed| <==> !SharesSlot(removed, n)
    decreases |removed|
  {
    var keys := removed.Keys;
    if keys == {} {
      assert Occupied(removed, n) == {};
    } else {
      SetHasElement(keys);
      var k :| k in keys;
      var rest := removed - {k};
      assert |rest| == |removed| - 1 by {
        assert rest.Keys == removed.Keys - {k};
      }
      OccupiedCount(rest, n);
      OccupiedRemove(removed, n, k);
      SharesSlotRemove(removed, n, k);
    }
  }

  /** The fill succeeds exactly when there are enough pure tokens for the empty
      slots; it then keeps every filled slot and puts `pure[c]` into the empty
      slot that has `c` empty slots before it. */
  lemma {:induction false} FillSpec(pure: seq<Token>, placed: seq<Option<Token>>)
    ensures Fill(pure, placed).Ok? <==> FreeSlots(placed) <= |pure|
    ensures Fill(pure, placed).Ok? ==>
      var r := Fill(pure, placed).value;
      && |r| == |placed|
      && forall j :: 0 <= j < |placed| ==>
           if placed[j].Some? then r[j] == placed[j].value
           else FreeSlots(placed[..j]) < |pure| && r[j] == pure[FreeSlots(placed[..j])]
  {
    if placed != [] {
      var tail := placed[1..];
      var pure' := if placed[0].Some? then pure else if pure == [] then [] else pure[1..];
      FillSpec(pure', tail);
      if Fill(pure, placed).Ok? {
        var r := Fill(pure, placed).value;
        var r' := Fill(pure', tail).value;
        forall j | 0 <= j < |placed|
          ensures if placed[j].Some? then r[j] == placed[j].value
                  else FreeSlots(placed[..j]) < |pure| && r[j] == pure[FreeSlots(placed[..j])]
        {
          if j > 0 {
            assert placed[..j] == [placed[0]] + tail[..j - 1];
            FreeSlotsAppend([placed[0]], tail[..j - 1]);
            assert FreeSlots([placed[0]]) == (if placed[0].None? then 1 else 0) by {
              assert [placed[0]][1..] == [];
            }
            assert r[j] == r'[j - 1];
            assert tail[j - 1] == placed[j];
          } else {
            assert placed[..0] == [];
          }
        }
      }
    }
  }

  /** Whether the fill succeeds depends only on which slots are empty. */
  lemma {:induction false} FillPattern(pure: seq<Token>, a: seq<Option<Token>>, b: seq<Option<Token>>)
    requires |a| == |b|
    requires forall s :: 0 <= s < |a| ==> (a[s].Some? <==> b[s].Some?)
    ensures Fill(pure, a).Ok? <==> Fill(pure, b).Ok?
  {
    if a != [] {
      assert forall s :: 0 <= s < |a| - 1 ==> a[1..][s] == a[s + 1] && b[1..][s] == b[s + 1];
      FillPattern(if a[0].Some? || pure == [] then pure else pure[1..], a[1..], b[1..]);
    }
  }

  /** The empty slots of `Placed` are those no key names. */
  lemma PlacedFreeSlots(removed: map<int, Token>, n: nat)
    requires KeysInRange(removed, n)
    ensures FreeSlots(Placed(removed, n)) + |Occupied(removed, n)| == n
  {
    var p := Placed(removed, n);
    FreeSlotsCount(p);
    assert (set s | 0 <= s < |p| && p[s].Some?) == Occupied(removed, n);
  }

  /** Restore succeeds exactly when every key is a valid index and no two keys
      share a slot, in particular whenever the keys are distinct indices in
      `[0, |pure| + |removed|)`. */
  lemma RestoreSucceeds(pure: seq<Token>, removed: map<int, Token>)
    ensures RestoreSpec(pure, removed).Ok? <==>
      var n := |pure| + |removed|; KeysInRange(removed, n) && !SharesSlot(removed, n)
  {
    var n := |pure| + |removed|;
    if KeysInRange(removed, n) {
      PlacedFreeSlots(removed, n);
      OccupiedCount(removed, n);
      FillSpec(pure, Placed(removed, n));
    }
  }

  /** What a successful restore returns: a list of length `|pure| + |removed|`;
      each key's token at the slot the key names; the pure tokens, in order, in
      the slots no key names (the slot with `c` such slots before it holds
      `pure[c]`); and every pure token used (`i_pure` ends at `|pure|`). */
  lemma RestoreContents(pure: seq<Token>, removed: map<int, Token>)
    requires RestoreSpec(pure, removed).Ok?
    ensures var n := |pure| + |removed|;
      var r := RestoreSpec(pure, removed).value;
      var p := Placed(removed, n);
      && |r| == n
      && FreeSlots(p) == |pure|
      && (forall k :: k in removed ==> 0 <= Slot(k, n) < n && r[Slot(k, n)] == removed[k])
      && (forall s :: 0 <= s < n && s !in Occupied(removed, n) ==>
            FreeSlots(p[..s]) < |pure| && r[s] == pure[FreeSlots(p[..s])])
  {
    var n := |pure| + |removed|;
    var p := Placed(removed, n);
    RestoreSucceeds(pure, removed);
    RestoreInRange(pure, removed, n);
    PlacedFreeSlots(removed, n);
    OccupiedCount(removed, n);
    FillSpec(pure, p);
    var r := Fill(pure, p).value;
    PlacedKeys(removed, n, r);
    PlacedFree(removed, n);
  }

  /** A list that keeps every placed slot holds each key's token at its slot. */
  lemma PlacedKeys(removed: map<int, Token>, n: nat, r: seq<Token>)
    requires KeysInRange(removed, n) && !SharesSlot(removed, n)
    requires |r| == n
    requires forall j :: 0 <= j < n && Placed(removed, n)[j].Some? ==> r[j] == Placed(removed, n)[j].value
    ensures forall k :: k in removed ==> 0 <= Slot(k, n) < n && r[Slot(k, n)] == removed[k]
  {
    var p := Placed(removed, n);
    forall k | k in removed
      ensures 0 <= Slot(k, n) < n && r[Slot(k, n)] == removed[k]
    {
      if k < 0 {
        assert k + n !in removed;
      }
      assert p[Slot(k, n)] == Some(removed[k]);
    }
  }

  /** The slots no key names are the empty slots of `Placed`. */
  lemma PlacedFree(removed: map<int, Token>, n: nat)
    ensures forall s :: 0 <= s < n && s !in Occupied(removed, n) ==> Placed(removed, n)[s].None?
  {
  }

  /** Slot `s` is named by one of the keys in `done`. */
  predicate NamedBy(done: set<int>, n: nat, s: int) {
    s in done || s - n in done
  }

  /** The placement loop's state after the keys in `done` were written: a slot
      is filled exactly when one of them names it, and a slot named by a single
      key holds that key's token. */
  ghost predicate Agrees(p: seq<Option<Token>>, removed: map<int, Token>, done: set<int>, n: nat) {
    |p| == n && forall s :: 0 <= s < n ==> AgreesAt(p[s], removed, done, n, s)
  }

  ghost predicate AgreesAt(v: Option<Token>, removed: map<int, Token>, done: set<int>, n: nat, s: int)
    requires 0 <= s < n
  {
    && (v.Some? <==> NamedBy(done, n, s))
    && (v.Some? && !(s in removed && s - n in removed) ==> v == Placed(removed, n)[s])
  }

  /** One step of the placement loop keeps `Agrees`. */
  lemma PlaceStep(p: seq<Option<Token>>, removed: map<int, Token>, done: set<int>, n: nat, k: int)
    requires Agrees(p, removed, done, n)
    requires k in removed && k !in done && -(n as int) <= k < n
    ensures Agrees(p[Slot(k, n) := Some(removed[k])], removed, done + {k}, n)
  {
    var t := Slot(k, n);
    var q := p[t := Some(removed[k])];
    forall s | 0 <= s < n
      ensures AgreesAt(q[s], removed, done + {k}, n, s)
    {
      assert AgreesAt(p[s], removed, done, n, s);
      if s == t {
        if k < 0 && !(s in removed && s - n in removed) {
          assert s !in removed;
        }
      } else {
        assert s != k && s - n != k;
      }
    }
  }

  /** After the placement loop the fill has the outcome restore is specified to have. */
  lemma AgreeFill(pure: seq<Token>, placed: seq<Option<Token>>, removed: map<int, Token>)
    requires Agrees(placed, removed, removed.Keys, |pure| + |removed|)
    requires KeysInRange(removed, |pure| + |removed|)
    ensures Fill(pure, placed) == RestoreSpec(pure, removed)
  {
    var n := |pure| + |removed|;
    var spec := Placed(removed, n);
    FillPattern(pure, placed, spec);
    RestoreSucceeds(pure, removed);
    if Fill(pure, placed).Ok? {
      forall s | 0 <= s < n ensures placed[s] == spec[s] {
        assert AgreesAt(placed[s], removed, removed.Keys, n, s);
        if s in removed && s - n in removed {
          assert SharesSlot(removed, n);
        }
      }
      assert placed == spec;
    }
  }

  /** One step of the fill loop. */
  lemma FillUnfold(pure: seq<Token>, placed: seq<Option<Token>>, i: nat, iPure: nat)
    requires i < |placed| && iPure <= |pure|
    ensures Fill(pure[iPure..], placed[i..]) ==
      if placed[i].Some? then PrependAll([placed[i].value], Fill(pure[iPure..], placed[i + 1..]))
      else if iPure == |pure| then Err(IndexError)
      else PrependAll([pure[iPure]], Fill(pure[iPure + 1..], placed[i + 1..]))
  {
    assert placed[i..][0] == placed[i] && placed[i..][1..] == placed[i + 1..];
    if iPure < |pure| {
      assert pure[iPure..][0] == pure[iPure] && pure[iPure..][1..] == pure[iPure + 1..];
    }
  }

  /** The placement loop of `restore_non_instrumental`: writes each key's token
      at the slot the key names, or fails on a key outside the list. */
  method Place(removed: map<int, Token>, n: nat) returns (reconstructed: array<Option<Token>>, ok: bool)
    ensures fresh(reconstructed)
    ensures ok <==> KeysInRange(removed, n)
    ensures ok ==> Agrees(reconstructed[..], removed, removed.Keys, n)
  {
    reconstructed := new Option<Token>[n](_ => None);
    var keys := removed.Keys;
    ghost var done: set<int> := {};
    while keys != {}
      invariant keys + done == removed.Keys && keys !! done
      invariant forall k :: k in done ==> -(n as int) <= k < n
      invariant Agrees(reconstructed[..], removed, done, n)
      decreases keys
    {
      SetHasElement(keys);
      var k :| k in keys;
      if !(-(n as int) <= k < n) {
        assert k in removed && !KeysInRange(removed, n);
        return reconstructed, false;
      }
      PlaceStep(reconstructed[..], removed, done, n, k);
      reconstructed[Slot(k, n)] := Some(removed[k]);
      keys := keys - {k};
      done := done + {k};
    }
    ok := true;
  }

  /** The fill loop of `restore_non_instrumental`: each empty slot, in ascending
      order, takes the next pure token. */
  method FillEmpty(reconstructed: array<Option<Token>>, pure: seq<Token>) returns (r: Result<seq<Token>>)
    modifies reconstructed
    ensures r == Fill(pure, old(reconstructed[..]))
    ensures r.Ok? ==> |r.value| == reconstructed.Length && forall j :: 0 <= j < reconstructed.Length ==> reconstructed[j] == Some(r.value[j])
  {
    ghost var placed := reconstructed[..];
    var n := reconstructed.Length;
    var iPure := 0;
    var i := 0;
    ghost var out: seq<Token> := [];
    assert pure[0..] == pure && placed[0..] == placed;
    PrependAllConcat([], [], Fill(pure, placed));
    while i < n
      invariant 0 <= i <= n && 0 <= iPure <= |pure| && |out| == i
      invariant forall j :: i <= j < n ==> reconstructed[j] == placed[j]
      invariant forall j :: 0 <= j < i ==> reconstructed[j] == Some(out[j])
      invariant Fill(pure, placed) == PrependAll(out, Fill(pure[iPure..], placed[i..]))
    {
      FillUnfold(pure, placed, i, iPure);
      if reconstructed[i].None? {
        if iPure >= |pure| {
          assert Fill(pure, placed).Err?;
          return Err(IndexError);
        }
        PrependAllConcat(out, [pure[iPure]], Fill(pure[iPure + 1..], placed[i + 1..]));
        reconstructed[i] := Some(pure[iPure]);
        out := out + [pure[iPure]];
        iPure := iPure + 1;
      } else {
        PrependAllConcat(out, [placed[i].value], Fill(pure[iPure..], placed[i + 1..]));
        out := out + [reconstructed[i].value];
      }
      i := i + 1;
    }
    assert placed[n..] == [] && out + [] == out;
    r := Ok(Unwrap(reconstructed[..]));
    assert Unwrap(reconstructed[..]) == out;
  }

  /** `restore_non_instrumental` */
  method Restore(pure: seq<Token>, removed: map<int, Token>) returns (r: Result<seq<Token>>)
    ensures r == RestoreSpec(pure, removed)
  {
    var n := |pure| + |removed|;
    var reconstructed, ok := Place(removed, n);
    if !ok {
      return Err(IndexError);
    }
    AgreeFill(pure, reconstructed[..], removed);
    r := FillEmpty(reconstructed, pure);
  }

  // ---------------------------------------------------------------------
  // Round trip

  /** The slots strip leaves behind: the removed token where it removed one, a
      gap where it kept an instrumental token. */
  function Mask(ts: seq<Token>): (p: seq<Option<Token>>)
    ensures |p| == |ts|
  {
    seq(|ts|, s requires 0 <= s < |ts| => if IsInstrumental(ts[s]) then None else Some(ts[s]))
  }

  lemma {:induction false} FillStripped(ts: seq<Token>)
    ensures Fill(PureOf(ts), Mask(ts)) == Ok(ts)
  {
    if ts != [] {
      assert Mask(ts)[1..] == Mask(ts[1..]);
      FillStripped(ts[1..]);
      if IsInstrumental(ts[0]) {
        assert PureOf(ts) == [ts[0]] + PureOf(ts[1..]);
        assert PureOf(ts)[1..] == PureOf(ts[1..]);
      } else {
        assert PureOf(ts) == PureOf(ts[1..]);
      }
      assert ts == [ts[0]] + ts[1..];
    }
  }

  /** The list after placing strip's removed tokens is the mask of the input. */
  lemma PlacedStripped(ts: seq<Token>)
    ensures Placed(RemovedOf(ts), |ts|) == Mask(ts)
  {
    var removed := RemovedOf(ts);
    var n := |ts|;
    forall s | 0 <= s < n ensures Placed(removed, n)[s] == Mask(ts)[s] {
      assert s - n !in removed;
    }
  }

  /** With its keys in range, restore is the fill of the placed list. */
  lemma RestoreInRange(pure: seq<Token>, removed: map<int, Token>, n: nat)
    requires n == |pure| + |removed| && KeysInRange(removed, n)
    ensures RestoreSpec(pure, removed) == Fill(pure, Placed(removed, n))
  {
  }

  /** Strip's keys are indices of the original list. */
  lemma StrippedKeysInRange(ts: seq<Token>)
    ensures KeysInRange(RemovedOf(ts), |ts|)
  {
  }

  /** Restoring what strip produced gives back the original token list. */
  lemma RoundTrip(ts: seq<Token>)
    ensures RestoreSpec(PureOf(ts), RemovedOf(ts)) == Ok(ts)
  {
    var pure, removed := PureOf(ts), RemovedOf(ts);
    StripPartitions(ts);
    assert |pure| + |removed| == |ts|;
    StrippedKeysInRange(ts);
    RestoreInRange(pure, removed, |ts|);
    PlacedStripped(ts);
    FillStripped(ts);
  }
}
