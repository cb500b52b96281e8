/**
  Worked instances of the stream operations on small token lists, each derived
  from the general lemmas of its module.
*/
module Examples {
  import opened Tokens
  import opened Repeats
  import opened TrackMerge
  import StripRestore

  /** Three copies of a one-token region. */
  lemma ExpandThreeCopies()
    ensures Expand(["measure:repeat_open", "note:a", "measure:repeat_close:3"]) == ["note:a", "note:a", "note:a"]
  {
    var s: seq<Token> := ["measure:repeat_open", "note:a", "measure:repeat_close:3"];
    assert Decimal(3) == "3";
    assert s[2] == CountPrefix + Decimal(3) + "";
    RepeatCountOfMarker(3, "");
    assert !IsClose(s[1]) by { assert s[1][0] != RepeatClose[0]; }
    assert IsOpen(s[0]);
    ExpandRegion(s, 0, 2, 3);
    assert s[1..2] == ["note:a"];
    assert Repeat(["note:a"], 3) == ["note:a", "note:a", "note:a"];
    assert ExpandFrom(s, 3) == [];
  }

  /** A region repeated zero times disappears. */
  lemma ExpandZeroCopies()
    ensures Expand(["measure:repeat_open", "note:a", "measure:repeat_close:0"]) == []
  {
    var s: seq<Token> := ["measure:repeat_open", "note:a", "measure:repeat_close:0"];
    assert Decimal(0) == "0";
    assert s[2] == CountPrefix + Decimal(0) + "";
    RepeatCountOfMarker(0, "");
    assert !IsClose(s[1]) by { assert s[1][0] != RepeatClose[0]; }
    assert IsOpen(s[0]);
    ExpandRegion(s, 0, 2, 0);
    assert ExpandFrom(s, 3) == [];
  }

  /** An open marker without a close marker stays in place. */
  lemma ExpandUnclosedExample()
    ensures Expand(["measure:repeat_open", "note:a"]) == ["measure:repeat_open", "note:a"]
  {
    var s: seq<Token> := ["measure:repeat_open", "note:a"];
    assert !IsOpen(s[1]) by { assert s[1][0] != RepeatOpen[0]; }
    assert !IsClose(s[1]) by { assert s[1][0] != RepeatClose[0]; }
    assert IsOpen(s[0]);
    ExpandUnclosed(s, 0);
    ExpandPassThrough(s, 1, 2);
    assert s[1..2] == ["note:a"];
    assert ExpandFrom(s, 2) == [];
  }

  /** Text without the letter `c` cannot hold a track tag. */
  lemma NoTrackTagWithoutC(s: string)
    requires forall i :: 0 <= i < |s| ==> s[i] != 'c'
    ensures NoTrackTag(s)
  {
    forall i | 0 <= i < |s| ensures TrackTagLength(s[i..]) == 0 {
      assert s[i..][0] == s[i] != TrackPrefix[0];
    }
  }

  /** `clean<n>:` is removed from a tagged token. */
  lemma CleanedAt(n: nat, t: string)
    requires forall i :: 0 <= i < |t| ==> t[i] != 'c'
    ensures RemoveTrackTags(TrackPrefix + Decimal(n) + ":" + t) == t
  {
    NoTrackTagWithoutC(t);
    RemoveTrackTagOfTagged(n, t);
  }

  /** The track tag is removed from a resting track's token. */
  lemma CleanedRestExample()
    ensures RemoveTrackTags("clean0:rest") == Rest
  {
    assert Decimal(0) == "0";
    assert "clean0:rest" == TrackPrefix + Decimal(0) + ":" + Rest;
    CleanedAt(0, Rest);
  }

  /** The same on another track. */
  lemma CleanedRestOneExample()
    ensures RemoveTrackTags("clean1:rest") == Rest
  {
    assert Decimal(1) == "1";
    assert "clean1:rest" == TrackPrefix + Decimal(1) + ":" + Rest;
    CleanedAt(1, Rest);
  }

  /** The track tag is removed from a fretted track's token. */
  lemma CleanedNoteExample()
    ensures RemoveTrackTags("clean2:note:s1:f2") == "note:s1:f2"
  {
    assert Decimal(2) == "2";
    assert "clean2:note:s1:f2" == TrackPrefix + Decimal(2) + ":" + "note:s1:f2";
    CleanedAt(2, "note:s1:f2");
  }

  lemma PruneExample()
    ensures Prune([Rest, Rest, "note:s1:f2"]) == [Rest, "note:s1:f2"]
  {
    var note: Token := "note:s1:f2";
    var c: seq<Token> := [Rest, Rest, note];
    assert note != Rest;
    assert c[..2] == [Rest, Rest] && c[..2][..1] == [Rest] && c[..2][..1][..0] == [];
    assert Prune([Rest]) == [Rest];
    assert Prune([Rest, Rest]) == [Rest];
    assert Prune(c) == Prune([Rest, Rest]) + [note];
  }

  /** Two tokens whose keys are out of order are swapped. Keys are compared
      as `extract_s_number` orders them, so a token without a string number
      sorts after one with a number. */
  lemma SortOutOfOrderPair(x: Token, y: Token)
    requires KeyLt(NoteKey(y), NoteKey(x))
    ensures SortNotes([x, y]) == [y, x]
  {
    var r: seq<Token> := [y, x];
    assert SortedByKey(r) by {
      assert KeyLe(NoteKey(r[0]), NoteKey(r[1]));
    }
    forall k ensures WithKey(r, k) == WithKey([x, y], k) {
      WithKeyPair(x, y, k);
      WithKeyPair(y, x, k);
    }
    SortNotesUnique([x, y], r);
  }

  /** The tokens of a pair with key `k`. */
  lemma WithKeyPair(x: Token, y: Token, k: Option<nat>)
    ensures WithKey([x, y], k) == (if NoteKey(x) == k then [x] else []) + (if NoteKey(y) == k then [y] else [])
  {
    assert [x, y][1..] == [y] && [y][1..] == [];
    assert WithKey([y], k) == (if NoteKey(y) == k then [y] else []) + [];
  }

  /** Two notes are ordered by string number. */
  lemma SortTwoNotesExample()
    ensures SortNotes(["note:s3:f0", "note:s1:f2"]) == ["note:s1:f2", "note:s3:f0"]
  {
    assert Decimal(1) == "1" && Decimal(3) == "3";
    NoteKeyOfNote(1, "f2");
    NoteKeyOfNote(3, "f0");
    assert "note:s1:f2" == "note:s" + Decimal(1) + ":" + "f2";
    assert "note:s3:f0" == "note:s" + Decimal(3) + ":" + "f0";
    SortOutOfOrderPair("note:s3:f0", "note:s1:f2");
  }

  /** Three tracks at the same position, two of them resting, once their
      tags are removed: the rests collapse into one, which sorts after the
      fretted note. */
  lemma MergeExample()
    ensures SortNotes(Prune([Rest, Rest, "note:s1:f2"])) == ["note:s1:f2", Rest]
  {
    PruneExample();
    assert Decimal(1) == "1";
    NoteKeyOfNote(1, "f2");
    assert "note:s1:f2" == "note:s" + Decimal(1) + ":" + "f2";
    NoteKeyOfRest();
    SortOutOfOrderPair(Rest, "note:s1:f2");
  }

  /** Cleaning three tracks cleans each of them. */
  lemma CleanedOfThree(a: Token, b: Token, c: Token, a': Token, b': Token, c': Token)
    requires RemoveTrackTags(a) == a' && RemoveTrackTags(b) == b' && RemoveTrackTags(c) == c'
    ensures Cleaned([a, b, c]) == [a', b', c']
  {
    var r := Cleaned([a, b, c]);
    assert r[0] == a' && r[1] == b' && r[2] == c';
  }

  /** The whole of `merge_tracks_and_prune` on three tagged tracks. */
  lemma MergedExample()
    ensures Merged(["clean0:rest", "clean1:rest", "clean2:note:s1:f2"]) == ["note:s1:f2", Rest]
  {
    CleanedRestExample();
    CleanedRestOneExample();
    CleanedNoteExample();
    CleanedOfThree("clean0:rest", "clean1:rest", "clean2:note:s1:f2", Rest, Rest, "note:s1:f2");
    MergeExample();
  }

  /** Stripping three tokens of which only the middle one is instrumental. */
  lemma StripOfThree(a: Token, b: Token, c: Token)
    requires !StripRestore.IsInstrumental(a) && StripRestore.IsInstrumental(b) && !StripRestore.IsInstrumental(c)
    ensures StripRestore.PureOf([a, b, c]) == [b]
    ensures StripRestore.RemovedOf([a, b, c]) == map[0 := a, 2 := c]
  {
    var ts: seq<Token> := [a, b, c];
    assert ts[1..] == [b, c] && ts[1..][1..] == [c] && ts[1..][1..][1..] == [];
    assert StripRestore.PureOf([c]) == [];
    assert StripRestore.PureOf([b, c]) == [b];
    assert StripRestore.RemovedOf(ts).Keys == {0, 2};
  }

  /** A wait and a `bfs` token are set aside around a note, and
      restoring puts them back where they were. */
  lemma StripExample()
    ensures StripRestore.PureOf(["wait:1", "note:a", "bfs:x"]) == ["note:a"]
    ensures StripRestore.RemovedOf(["wait:1", "note:a", "bfs:x"]) == map[0 := "wait:1", 2 := "bfs:x"]
    ensures StripRestore.RestoreSpec(["note:a"], map[0 := "wait:1", 2 := "bfs:x"]) == StripRestore.Ok(["wait:1", "note:a", "bfs:x"])
  {
    assert "wait:1"[..5][0] != StripRestore.InstrumentalPrefix[0];
    assert "note:a"[..5] == StripRestore.InstrumentalPrefix;
    assert "bfs:x"[..5][0] != StripRestore.InstrumentalPrefix[0];
    StripOfThree("wait:1", "note:a", "bfs:x");
    StripRestore.RoundTrip(["wait:1", "note:a", "bfs:x"]);
  }
}
