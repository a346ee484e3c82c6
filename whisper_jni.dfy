/** A model of the native bridge between the Android app and the whisper
    speech-recognition engine (android/app/src/main/cpp/whisper-jni.cpp).

    The engine itself is not modelled: what it reports is an input.
    - loading a model yields a context pointer or null;
    - running inference yields an integer status;
    - after a successful run, the engine reports a list of segments whose
      text is present or null.
    What the bridge adds on top is modelled exactly: the null-handle guard,
    the status guard, the in-order concatenation of the present segment
    texts, and the removal of leading and trailing ASCII white space.
    Pointers are taken to be 64 bits wide, so the cast from the Java `long`
    handle to a context pointer keeps every bit of the handle. */
module WhisperJni {

  datatype Option<T> = None | Some(value: T)

  /** Java's `long`, which carries the native context pointer across JNI. */
  newtype JLong = x: int | -0x8000_0000_0000_0000 <= x < 0x8000_0000_0000_0000

  /** The integer value of a non-null `whisper_context *`. */
  type Address = a: JLong | a != 0 witness 1

  /** The segment list, as reported by `whisper_full_n_segments` and
      `whisper_full_get_segment_text`, and the status of `whisper_full`. */
  datatype EngineOutput = EngineOutput(status: int, segments: seq<Option<string>>)

  /** What `transcribe` returns, and whether it reached `whisper_full`. */
  datatype Reply = Reply(text: string, engineInvoked: bool)

  /** The decoding parameters `transcribe` fixes before each run, on top of
      the engine's defaults for greedy sampling (the only strategy the bridge
      asks for). Nothing in the bridge depends on them; they are recorded for
      completeness. */
  datatype DecodeParams = DecodeParams(
    printProgress: bool, printSpecial: bool, printTimestamps: bool, printRealtime: bool,
    translate: bool, language: string, threads: nat, noContext: bool, singleSegment: bool)

  const TRANSCRIBE_PARAMS := DecodeParams(false, false, false, false, false, "en", 4, true, false)

  // ---------------------------------------------------------------------
  // Handles

  /** The cast `(whisper_context *) contextPtr`, with 64-bit pointers: a
      zero handle is null, any other handle is the context at that address. */
  function ContextOf(handle: JLong): (ctx: Option<Address>)
    ensures ctx.None? <==> handle == 0
    ensures ctx.Some? ==> ctx.value == handle
  {
    if handle == 0 then None else Some(handle)
  }

  /** `initContext`, given what `whisper_init_from_file_with_params` returned
      for the model path (None for a null pointer). */
  function InitContext(loaded: Option<Address>): (handle: JLong)
    ensures handle == 0 <==> loaded.None?
    ensures loaded.Some? ==> handle == loaded.value
  {
    match loaded
    case None => 0
    case Some(ctx) => ctx
  }

  /** A handle returned by `initContext` gives back the loaded context when
      it is passed to `transcribe` or `freeContext`, and null after a
      failed load. */
  lemma ContextOfInitContext(loaded: Option<Address>)
    ensures ContextOf(InitContext(loaded)) == loaded
  {
  }

  /** What `freeContext` does with a handle. */
  datatype FreeAction = NoOp | Free(ctx: Address)

  /** `freeContext`: `whisper_free` is called on the context exactly when
      the handle is non-zero; a zero handle is a no-op. */
  function FreeContext(handle: JLong): (action: FreeAction)
    ensures action == NoOp <==> handle == 0
    ensures action.Free? ==> action.ctx == handle
  {
    match ContextOf(handle)
    case None => NoOp
    case Some(ctx) => Free(ctx)
  }

  /** Freeing the handle of a failed load does nothing; freeing the handle
      of a successful load frees exactly the loaded context. */
  lemma FreeContextAfterInit(loaded: Option<Address>)
    ensures loaded.None? ==> FreeContext(InitContext(loaded)) == NoOp
    ensures loaded.Some? ==> FreeContext(InitContext(loaded)) == Free(loaded.value)
  {
  }

  // ---------------------------------------------------------------------
  // Segment assembly

  /** The text a segment contributes: nothing when it is null. */
  function SegmentText(segment: Option<string>): string
  {
    match segment
    case None => ""
    case Some(t) => t
  }

  /** The present segment texts, concatenated in index order with no
      separator. */
  function Assembled(segments: seq<Option<string>>): string
  {
    if segments == [] then "" else SegmentText(segments[0]) + Assembled(segments[1..])
  }

  /** Assembling two runs of segments one after the other gives the two
      assembled texts one after the other. */
  lemma {:induction false} AssembledAppend(a: seq<Option<string>>, b: seq<Option<string>>)
    ensures Assembled(a + b) == Assembled(a) + Assembled(b)
  {
    if a == [] {
      assert a + b == b;
    } else {
      assert (a + b)[1..] == a[1..] + b;
      AssembledAppend(a[1..], b);
    }
  }

  /** A null segment contributes nothing, wherever it stands. */
  lemma NullSegmentSkipped(a: seq<Option<string>>, b: seq<Option<string>>)
    ensures Assembled(a + [None] + b) == Assembled(a + b)
  {
    AssembledAppend(a + [None], b);
    AssembledAppend(a, [None]);
    AssembledAppend(a, b);
    assert Assembled([None]) == "";
  }

  /** A present segment contributes its text unchanged, between the texts of
      the segments before it and those after it. */
  lemma PresentSegmentKept(a: seq<Option<string>>, t: string, b: seq<Option<string>>)
    ensures Assembled(a + [Some(t)] + b) == Assembled(a) + t + Assembled(b)
  {
    AssembledAppend(a + [Some(t)], b);
    AssembledAppend(a, [Some(t)]);
    assert Assembled([Some(t)]) == t + Assembled([]);
  }

  /** With no present segment (in particular with no segment at all), the
      assembled text is empty. */
  lemma {:induction false} AssembledAllNull(segments: seq<Option<string>>)
    requires forall i :: 0 <= i < |segments| ==> segments[i].None?
    ensures Assembled(segments) == ""
  {
    if segments != [] {
      AssembledAllNull(segments[1..]);
    }
  }

  /** `transcribe`'s segment loop: `text += segText` for every non-null
      segment, in index order. */
  method AssembleSegments(segments: seq<Option<string>>) returns (text: string)
    ensures text == Assembled(segments)
  {
    text := "";
    for i := 0 to |segments|
      invariant text == Assembled(segments[..i])
    {
      var segText := segments[i];
      if segText.Some? {
        text := text + segText.value;
      }
      assert segments[..i + 1] == segments[..i] + [segments[i]];
      AssembledAppend(segments[..i], [segments[i]]);
      assert Assembled([segments[i]]) == SegmentText(segments[i]) + Assembled([]);
    }
    assert segments[..|segments|] == segments;
  }

  // ---------------------------------------------------------------------
  // Trimming

  /** The set passed to `find_first_not_of` / `find_last_not_of`. */
  const TRIM_CHARS := " \t\n\r"

  /** Membership in `TRIM_CHARS`, spelled out character by character. */
  predicate IsTrimSpace(c: char)
  {
    c == ' ' || c == '\t' || c == '\n' || c == '\r'
  }

  /** `IsTrimSpace` holds of exactly the four characters of `TRIM_CHARS`. */
  lemma IsTrimSpaceMeansTrimChar(c: char)
    ensures IsTrimSpace(c) <==> c in TRIM_CHARS
  {
    assert TRIM_CHARS == [' ', '\t', '\n', '\r'];
  }

  predicate AllTrimSpace(s: string)
  {
    forall i :: 0 <= i < |s| ==> IsTrimSpace(s[i])
  }

  /** `s.find_first_not_of(" \t\n\r")`; None stands for `npos`. */
  function FindFirstNotOf(s: string): (r: Option<nat>)
    ensures r.None? <==> AllTrimSpace(s)
    ensures r.Some? ==> r.value < |s| && !IsTrimSpace(s[r.value])
    ensures r.Some? ==> forall i :: 0 <= i < r.value ==> IsTrimSpace(s[i])
  {
    if s == [] then None
    else if !IsTrimSpace(s[0]) then Some(0)
    else match FindFirstNotOf(s[1..])
      case None => None
      case Some(k) => Some(k + 1)
  }

  /** `s.find_last_not_of(" \t\n\r")`; None stands for `npos`. */
  function FindLastNotOf(s: string): (r: Option<nat>)
    ensures r.None? <==> AllTrimSpace(s)
    ensures r.Some? ==> r.value < |s| && !IsTrimSpace(s[r.value])
    ensures r.Some? ==> forall i :: r.value < i < |s| ==> IsTrimSpace(s[i])
  {
    if s == [] then None
    else if !IsTrimSpace(s[|s| - 1]) then Some(|s| - 1)
    else FindLastNotOf(s[..|s| - 1])
  }

  /** `transcribe`'s trim: keep `text.substr(start, end - start + 1)` when some
      character is not white space, and the empty string otherwise. */
  function Trim(s: string): (r: string)
    ensures |r| <= |s|
    ensures r == "" <==> AllTrimSpace(s)
    ensures r != "" ==> !IsTrimSpace(r[0]) && !IsTrimSpace(r[|r| - 1])
  {
    var start := FindFirstNotOf(s);
    var end := FindLastNotOf(s);
    if start.Some? then
      assert end.Some? && start.value <= end.value;
      s[start.value..end.value + 1]
    else ""
  }

  /** `t` is a contiguous piece of `s` with only white space before and
      after it. */
  predicate IsSpaceBoundedSliceOf(t: string, s: string)
  {
    exists i, j :: 0 <= i <= j <= |s| && t == s[i..j] && AllTrimSpace(s[..i]) && AllTrimSpace(s[j..])
  }

  /** The trimmed text is the slice of the input from its first to its last
      non-white-space character, inclusive: everything cut off before and
      after it is white space, and nothing inside it is changed. */
  lemma TrimIsSlice(s: string)
    ensures IsSpaceBoundedSliceOf(Trim(s), s)
  {
    var i, j := TrimBounds(s);
  }

  /** Where the trimmed text starts and ends in the input. */
  lemma TrimBounds(s: string) returns (i: nat, j: nat)
    ensures i <= j <= |s| && Trim(s) == s[i..j]
    ensures AllTrimSpace(s[..i]) && AllTrimSpace(s[j..])
  {
    var start := FindFirstNotOf(s);
    var end := FindLastNotOf(s);
    if start.Some? {
      i, j := start.value, end.value + 1;
    } else {
      i, j := 0, 0;
      assert AllTrimSpace(s[0..]) by { assert s[0..] == s; }
    }
  }

  /** The slice of `TrimIsSlice`, together with the emptiness and edge
      clauses of `Trim`, determines the result uniquely: whenever a text is
      white space, then `t`, then white space, where `t` is empty or neither
      starts nor ends with white space, trimming it yields exactly `t`. */
  lemma TrimCharacterised(p: string, t: string, q: string)
    requires AllTrimSpace(p) && AllTrimSpace(q)
    requires t == "" || (!IsTrimSpace(t[0]) && !IsTrimSpace(t[|t| - 1]))
    ensures Trim(p + t + q) == t
  {
    var s := p + t + q;
    forall k | 0 <= k < |p| ensures s[k] == p[k] { }
    forall k | |p| + |t| <= k < |s| ensures s[k] == q[k - |p| - |t|] { }
    if t == "" {
      assert AllTrimSpace(s);
    } else {
      var start := FindFirstNotOf(s);
      var end := FindLastNotOf(s);
      assert s[|p|] == t[0];
      assert s[|p| + |t| - 1] == t[|t| - 1];
      assert start.value == |p|;
      assert end.value == |p| + |t| - 1;
      assert s[|p|..|p| + |t|] == t;
    }
  }

  /** Trimming an already trimmed text changes nothing. */
  lemma TrimIdempotent(s: string)
    ensures Trim(Trim(s)) == Trim(s)
  {
    var t := Trim(s);
    assert "" + t + "" == t;
    TrimCharacterised("", t, "");
  }

  /** Only the four characters are trimmed: a text that neither starts nor
      ends with one of them is returned unchanged, whatever else it holds at
      its edges (a vertical tab, a form feed, a non-breaking space). */
  lemma TrimKeepsOtherEdges(s: string)
    requires s != [] && !IsTrimSpace(s[0]) && !IsTrimSpace(s[|s| - 1])
    ensures Trim(s) == s
  {
    assert "" + s + "" == s;
    TrimCharacterised("", s, "");
  }

  /** Two runs of white space make a run of white space. */
  lemma AllTrimSpaceAppend(a: string, b: string)
    requires AllTrimSpace(a) && AllTrimSpace(b)
    ensures AllTrimSpace(a + b)
  {
    forall k | 0 <= k < |a + b| ensures IsTrimSpace((a + b)[k]) {
      if k < |a| { assert (a + b)[k] == a[k]; } else { assert (a + b)[k] == b[k - |a|]; }
    }
  }

  /** Each of the four characters is removed from the front. */
  lemma TrimDropsLeadingSpace(c: char, s: string)
    requires IsTrimSpace(c)
    ensures Trim([c] + s) == Trim(s)
  {
    var i, j := TrimBounds(s);
    var p, t, q := s[..i], s[i..j], s[j..];
    assert s == p + t + q;
    assert [c] + s == ([c] + p) + t + q;
    AllTrimSpaceAppend([c], p);
    TrimCharacterised([c] + p, t, q);
  }

  /** Each of the four characters is removed from the back. */
  lemma TrimDropsTrailingSpace(c: char, s: string)
    requires IsTrimSpace(c)
    ensures Trim(s + [c]) == Trim(s)
  {
    var i, j := TrimBounds(s);
    var p, t, q := s[..i], s[i..j], s[j..];
    assert s == p + t + q;
    assert s + [c] == p + t + (q + [c]);
    AllTrimSpaceAppend(q, [c]);
    TrimCharacterised(p, t, q + [c]);
  }

  // ---------------------------------------------------------------------
  // transcribe

  /** `transcribe` on a handle, with what the engine reports for the run. */
  function TranscribeResult(handle: JLong, engine: EngineOutput): (r: Reply)
    ensures r.engineInvoked <==> handle != 0
    ensures handle == 0 ==> r.text == ""
    ensures engine.status != 0 ==> r.text == ""
    ensures r.text == "" <==>
              handle == 0 || engine.status != 0 || AllTrimSpace(Assembled(engine.segments))
    ensures r.text != "" ==> !IsTrimSpace(r.text[0]) && !IsTrimSpace(r.text[|r.text| - 1])
    ensures handle != 0 && engine.status == 0 ==> IsSpaceBoundedSliceOf(r.text, Assembled(engine.segments))
  {
    match ContextOf(handle)
    case None => Reply("", false)
    case Some(_) =>
      if engine.status != 0 then Reply("", true)
      else
        var text := Assembled(engine.segments);
        TrimIsSlice(text);
        Reply(Trim(text), true)
  }

  /** A null handle yields the empty string without running the engine,
      whatever the engine would have reported. */
  lemma NullHandleIgnoresEngine(e1: EngineOutput, e2: EngineOutput)
    ensures TranscribeResult(0, e1) == TranscribeResult(0, e2) == Reply("", false)
  {
  }

  /** A failed run yields the empty string, never a partial transcript,
      whatever segments the engine holds. */
  lemma FailedRunIgnoresSegments(handle: JLong, status: int, a: seq<Option<string>>, b: seq<Option<string>>)
    requires status != 0
    ensures TranscribeResult(handle, EngineOutput(status, a)) == TranscribeResult(handle, EngineOutput(status, b))
    ensures TranscribeResult(handle, EngineOutput(status, a)).text == ""
  {
  }

  /** After a successful run, `transcribe` returns the trimmed assembly. */
  lemma SuccessfulRunText(handle: JLong, segments: seq<Option<string>>)
    requires handle != 0
    ensures TranscribeResult(handle, EngineOutput(0, segments)).text == Trim(Assembled(segments))
  {
  }

  /** White space between segments is kept; only the outer edges of the
      whole concatenation are trimmed. */
  lemma InteriorSpaceKept(handle: JLong)
    requires handle != 0
    ensures TranscribeResult(handle, EngineOutput(0, [Some(" foo"), Some("bar ")])).text == "foobar"
  {
    var segments := [Some(" foo"), Some("bar ")];
    PresentSegmentKept([], " foo", [Some("bar ")]);
    PresentSegmentKept([], "bar ", []);
    assert [] + [Some(" foo")] + [Some("bar ")] == segments;
    assert [] + [Some("bar ")] + [] == [Some("bar ")];
    assert Assembled(segments) == " foo" + "bar ";
    assert " foo" + "bar " == " " + "foobar" + " ";
    TrimCharacterised(" ", "foobar", " ");
    SuccessfulRunText(handle, segments);
  }

  /** A null segment between two present ones does not break the interior
      white space either. */
  lemma NullBetweenSegmentsKeepsSpace(handle: JLong)
    requires handle != 0
    ensures TranscribeResult(handle, EngineOutput(0, [Some("  hello "), None, Some("world  ")])).text == "hello world"
  {
    var segments := [Some("  hello "), None, Some("world  ")];
    assert Assembled(segments) == "  hello " + "world  " by {
      PresentSegmentKept([], "  hello ", [None, Some("world  ")]);
      NullSegmentSkipped([], [Some("world  ")]);
      PresentSegmentKept([], "world  ", []);
      assert [] + [Some("  hello ")] + [None, Some("world  ")] == segments;
      assert [] + [None] + [Some("world  ")] == [None, Some("world  ")];
      assert [] + [Some("world  ")] == [Some("world  ")];
      assert [] + [Some("world  ")] + [] == [Some("world  ")];
    }
    assert Trim("  hello " + "world  ") == "hello world" by {
      assert "  hello " + "world  " == "  " + "hello world" + "  ";
      TrimCharacterised("  ", "hello world", "  ");
    }
    SuccessfulRunText(handle, segments);
  }

  /** `transcribe`, step by step: the null guard, the engine run, the status
      guard, the segment loop and the trim. */
  method Transcribe(handle: JLong, engine: EngineOutput) returns (r: Reply)
    ensures r == TranscribeResult(handle, engine)
  {
    var ctx := ContextOf(handle);
    if ctx == None {
      return Reply("", false);
    }
    var result := engine.status;
    if result != 0 {
      return Reply("", true);
    }
    var text := AssembleSegments(engine.segments);
    text := Trim(text);
    return Reply(text, true);
  }
}
