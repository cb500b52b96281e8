/**
  The body pass over a raw acoustic-solo token list: the tokens between
  `start` and `end` are kept, their repeat regions expanded, and then every
  run of track tokens (`clean…`) is merged into one sorted group placed just
  before the next recognized token (`note…`, `bfs…`, `nfx…`, `wait…`); other
  tokens are dropped.
*/
module AcousticSolo {
  import opened Tokens
  import Repeats
  import TrackMerge

  const Start: Token := "start"
  const End: Token := "end"

  /** A token of one track of a group of simultaneous notes. */
  predicate IsTrack(t: Token) {
    StartsWith(t, TrackMerge.TrackPrefix)
  }

  /** `token.startswith(("note", "bfs", "nfx", "wait"))` */
  predicate IsRecognized(t: Token) {
    StartsWith(t, "note") || StartsWith(t, "bfs") || StartsWith(t, "nfx") || StartsWith(t, "wait")
  }

  // ---------------------------------------------------------------------
  // Splitting into header, body and footer

  /** Whether the split loop is inside the body after the tokens `ts`. */
  function InBody(ts: seq<Token>): bool {
    if ts == [] then false
    else if ts[|ts| - 1] == Start then true
    else if ts[|ts| - 1] == End then false
    else InBody(ts[..|ts| - 1])
  }

  /** The body the split loop has collected after the tokens `ts`. */
  function Body(ts: seq<Token>): (b: seq<Token>)
    ensures forall t :: t in b ==> t in ts && t != Start && t != End
  {
    if ts == [] then []
    else
      var p := ts[..|ts| - 1];
      var x := ts[|ts| - 1];
      if x != Start && x != End && InBody(p) then Body(p) + [x] else Body(p)
  }

  /** One more token after `ts`: the loop's state and body after `ts + [x]`. */
  lemma BodySnoc(ts: seq<Token>, x: Token)
    ensures InBody(ts + [x]) == (x == Start || (x != End && InBody(ts)))
    ensures Body(ts + [x]) == if x != Start && x != End && InBody(ts) then Body(ts) + [x] else Body(ts)
  {
    assert (ts + [x])[..|ts + [x]| - 1] == ts;
  }

  /** Outside the body nothing is collected. */
  lemma {:induction false} BodyOutside(h: seq<Token>, f: seq<Token>)
    requires !InBody(h)
    requires Start !in f
    ensures Body(h + f) == Body(h) && !InBody(h + f)
    decreases |f|
  {
    if f == [] {
      assert h + f == h;
    } else {
      var p := f[..|f| - 1];
      var x := f[|f| - 1];
      assert f == p + [x];
      ConcatAssoc(h, p, [x]);
      BodyOutside(h, p);
      BodySnoc(h + p, x);
    }
  }

  /** Inside the body every token without a marker is collected, in order. */
  lemma {:induction false} BodyInside(h: seq<Token>, b: seq<Token>)
    requires InBody(h)
    requires Start !in b && End !in b
    ensures Body(h + b) == Body(h) + b && InBody(h + b)
    decreases |b|
  {
    if b == [] {
      ConcatEmpty(h);
      ConcatEmpty(Body(h));
    } else {
      var p := b[..|b| - 1];
      var x := b[|b| - 1];
      assert b == p + [x];
      ConcatAssoc(h, p, [x]);
      BodyInside(h, p);
      BodySnoc(h + p, x);
      ConcatAssoc(Body(h), p, [x]);
    }
  }

  /** With one `start … end` frame, the body is exactly the framed tokens. */
  lemma BodyOfFramed(h: seq<Token>, b: seq<Token>, f: seq<Token>)
    requires Start !in h
    requires Start !in b && End !in b
    requires Start !in f
    ensures Body(h + [Start] + b + [End] + f) == b
  {
    BodyOutside([], h);
    assert [] + h == h;
    var hs := h + [Start];
    assert hs[..|hs| - 1] == h;
    assert InBody(hs) && Body(hs) == Body(h);
    BodyInside(hs, b);
    var hsbe := hs + b + [End];
    assert hsbe[..|hsbe| - 1] == hs + b;
    assert !InBody(hsbe) && Body(hsbe) == b;
    BodyOutside(hsbe, f);
    assert h + [Start] + b + [End] + f == hsbe + f;
  }

  // ---------------------------------------------------------------------
  // Grouping the track tokens

  /** The state of the grouping loop: what it has emitted and the current
      group of track tokens. */
  datatype GroupState = GroupState(processed: seq<Token>, group: seq<Token>)

  /** The merged group, or nothing for an empty group. */
  function Flush(group: seq<Token>): seq<Token> {
    if group != [] then TrackMerge.Merged(group) else []
  }

  /** The grouping loop after the tokens `ts`. */
  function Scan(ts: seq<Token>): GroupState {
    if ts == [] then GroupState([], [])
    else
      var st := Scan(ts[..|ts| - 1]);
      var x := ts[|ts| - 1];
      if IsTrack(x) then GroupState(st.processed, st.group + [x])
      else if !IsRecognized(x) then st
      else GroupState(st.processed + Flush(st.group) + [x], [])
  }

  /** The loop's result: what it emitted, then the last group. */
  function Finish(st: GroupState): seq<Token> {
    st.processed + Flush(st.group)
  }

  /** The track tokens of `c`, in order. */
  function Tracks(c: seq<Token>): (r: seq<Token>)
    ensures forall t :: t in r <==> t in c && IsTrack(t)
  {
    if c == [] then [] else Tracks(c[..|c| - 1]) + (if IsTrack(c[|c| - 1]) then [c[|c| - 1]] else [])
  }

  /** The recognized tokens of `c`, in order. */
  function RecognizedOf(c: seq<Token>): (r: seq<Token>)
    ensures forall t :: t in r <==> t in c && IsRecognized(t)
  {
    if c == [] then [] else RecognizedOf(c[..|c| - 1]) + (if IsRecognized(c[|c| - 1]) then [c[|c| - 1]] else [])
  }

  /** Track tokens and unrecognized tokens only grow the group: the track
      tokens join it in order and the others are dropped. */
  lemma {:induction false} ScanGathers(ts: seq<Token>, c: seq<Token>)
    requires forall t :: t in c ==> IsTrack(t) || !IsRecognized(t)
    ensures Scan(ts + c) == GroupState(Scan(ts).processed, Scan(ts).group + Tracks(c))
    decreases |c|
  {
    if c == [] {
      assert ts + c == ts && Scan(ts).group + [] == Scan(ts).group;
    } else {
      var p := c[..|c| - 1];
      var x := c[|c| - 1];
      assert ts + c == (ts + p) + [x];
      assert (ts + c)[..|ts + c| - 1] == ts + p;
      assert x in c;
      ScanGathers(ts, p);
      ConcatAssoc(Scan(ts).group, Tracks(p), if IsTrack(x) then [x] else []);
      if !IsTrack(x) {
        assert Tracks(p) + [] == Tracks(p);
      }
    }
  }

  /** A recognized token that is not a track token closes the group: the merged
      group is emitted, then the token itself, and the group starts empty. */
  lemma ScanSegment(ts: seq<Token>, c: seq<Token>, r: Token)
    requires forall t :: t in c ==> IsTrack(t) || !IsRecognized(t)
    requires IsRecognized(r) && !IsTrack(r)
    ensures Scan(ts + c + [r]) == GroupState(Scan(ts).processed + Flush(Scan(ts).group + Tracks(c)) + [r], [])
  {
    ScanGathers(ts, c);
    var s := ts + c + [r];
    assert s[..|s| - 1] == ts + c;
  }

  /** Without track tokens the grouping keeps the recognized tokens, in order. */
  lemma {:induction false} ScanNoTracks(ts: seq<Token>)
    requires forall t :: t in ts ==> !IsTrack(t)
    ensures Scan(ts) == GroupState(RecognizedOf(ts), [])
  {
    if ts != [] {
      var p := ts[..|ts| - 1];
      var x := ts[|ts| - 1];
      assert x in ts;
      assert forall t :: t in p ==> t in ts;
      ScanNoTracks(p);
      if IsRecognized(x) {
        assert RecognizedOf(p) + Flush([]) == RecognizedOf(p);
      }
    }
  }

  // ---------------------------------------------------------------------
  // process_raw_acoustic_solo_tokens (token-list input)

  /** What the body pass returns for the token list `tokens`. */
  function Processed(tokens: seq<Token>): seq<Token> {
    Finish(Scan(Repeats.Expand(Body(tokens))))
  }

  /** A single `start … end` frame around tokens with no repeat markers and no
      track tokens: the result is the recognized framed tokens, in order. */
  lemma ProcessedPlainFrame(h: seq<Token>, b: seq<Token>, f: seq<Token>)
    requires Start !in h && Start !in f
    requires Start !in b && End !in b
    requires forall t :: t in b ==> !Repeats.IsOpen(t) && !IsTrack(t)
    ensures Processed(h + [Start] + b + [End] + f) == RecognizedOf(b)
  {
    BodyOfFramed(h, b, f);
    Repeats.ExpandNoMarkers(b);
    ScanNoTracks(b);
    assert RecognizedOf(b) + Flush([]) == RecognizedOf(b);
  }

  /** A single frame holding one chord: track tokens (and tokens that are
      neither tracks nor recognized) and then one recognized token.  The result
      is the merged chord followed by that token. */
  lemma ProcessedChord(h: seq<Token>, c: seq<Token>, r: Token, f: seq<Token>)
    requires Start !in h && Start !in f
    requires Start !in c && End !in c && r != Start && r != End
    requires forall t :: t in c ==> !Repeats.IsOpen(t) && (IsTrack(t) || !IsRecognized(t))
    requires IsRecognized(r) && !IsTrack(r) && !Repeats.IsOpen(r)
    ensures Processed(h + [Start] + c + [r] + [End] + f) == Flush(Tracks(c)) + [r]
  {
    var b := c + [r];
    ChordBody(h, c, r, f);
    assert forall m :: 0 <= m < |b| ==> !Repeats.IsOpen(b[m]) by {
      assert forall m :: 0 <= m < |c| ==> b[m] == c[m];
    }
    Repeats.ExpandNoMarkers(b);
    ScanChord(c, r);
    ConcatEmpty(Flush(Tracks(c)) + [r]);
  }

  /** The body of a frame holding one chord. */
  lemma ChordBody(h: seq<Token>, c: seq<Token>, r: Token, f: seq<Token>)
    requires Start !in h && Start !in f
    requires Start !in c && End !in c && r != Start && r != End
    ensures Body(h + [Start] + c + [r] + [End] + f) == c + [r]
  {
    var b := c + [r];
    assert h + [Start] + c + [r] + [End] + f == h + [Start] + b + [End] + f;
    BodyOfFramed(h, b, f);
  }

  lemma ScanChord(c: seq<Token>, r: Token)
    requires forall t :: t in c ==> IsTrack(t) || !IsRecognized(t)
    requires IsRecognized(r) && !IsTrack(r)
    ensures Scan(c + [r]) == GroupState(Flush(Tracks(c)) + [r], [])
  {
    ScanSegment([], c, r);
    ConcatEmpty(c);
    ConcatEmpty(Tracks(c));
    ConcatEmpty(Flush(Tracks(c)));
  }

  /** The split loop of `process_raw_acoustic_solo_tokens`: header and footer
      are collected as in the source but not returned. */
  method SplitBody(tokens: seq<Token>) returns (body: seq<Token>)
    ensures body == Body(tokens)
  {
    var header: seq<Token> := [];
    var footer: seq<Token> := [];
    var inBody := false;
    body := [];
    for i := 0 to |tokens|
      invariant body == Body(tokens[..i])
      invariant inBody == InBody(tokens[..i])
    {
      var token := tokens[i];
      assert tokens[..i + 1][..i] == tokens[..i] && tokens[..i + 1][i] == token;
      if token == Start {
        inBody := true;
        header := header + [token];
      } else if token == End {
        inBody := false;
        footer := footer + [token];
      } else if inBody {
        body := body + [token];
      } else {
        header := header + [token];
      }
    }
    assert tokens[..|tokens|] == tokens;
  }

  /** The grouping loop of `process_raw_acoustic_solo_tokens`, with the final
      flush of the last group. */
  method GroupTracks(expandedBody: seq<Token>) returns (processedBody: seq<Token>)
    ensures processedBody == Finish(Scan(expandedBody))
  {
    processedBody := [];
    var currentGroup: seq<Token> := [];
    for i := 0 to |expandedBody|
      invariant GroupState(processedBody, currentGroup) == Scan(expandedBody[..i])
    {
      var token := expandedBody[i];
      assert expandedBody[..i + 1][..i] == expandedBody[..i] && expandedBody[..i + 1][i] == token;
      if IsTrack(token) {
        currentGroup := currentGroup + [token];
        continue;
      }
      if !IsRecognized(token) {
        continue;
      }
      if currentGroup != [] {
        var merged := TrackMerge.MergeTracksAndPrune(currentGroup);
        processedBody := processedBody + merged;
        currentGroup := [];
      } else {
        ConcatEmpty(processedBody);
      }
      processedBody := processedBody + [token];
    }
    assert expandedBody[..|expandedBody|] == expandedBody;
    if currentGroup != [] {
      var merged := TrackMerge.MergeTracksAndPrune(currentGroup);
      processedBody := processedBody + merged;
    } else {
      ConcatEmpty(processedBody);
    }
  }

  /** `process_raw_acoustic_solo_tokens` on a token list. */
  method ProcessRawAcousticSoloTokens(tokens: seq<Token>) returns (processedBody: seq<Token>)
    ensures processedBody == Processed(tokens)
  {
    var body := SplitBody(tokens);
    var expandedBody := Repeats.ExpandRepeats(body);
    processedBody := GroupTracks(expandedBody);
  }
}
