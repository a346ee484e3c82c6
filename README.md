# whisper-jni bridge, modelled in Dafny

The Android app reaches the whisper speech-recognition engine through three
native entry points: `initContext` loads a model and returns a handle,
`transcribe` runs inference on a handle and returns the recognized text, and
`freeContext` releases the handle. The engine itself is an external library.
The model treats what the engine reports as inputs:

- the context pointer that loading returns, null or not;
- the integer status of `whisper_full`;
- the list of segment texts, each present or null.

On top of that, the model states exactly what the bridge does, for 64-bit
pointers (see `ContextOf` under "Left out"):

- a zero handle is a null context;
- a null context yields `""` without running the engine;
- a non-zero status yields `""`;
- otherwise the present segment texts are concatenated in index order;
- then leading and trailing characters from {space, tab, newline, carriage
  return} are cut off, and an all-white-space text becomes `""`.

Everything is in one module, `WhisperJni` (`whisper_jni.dfy`):

- `ContextOf`, `InitContext` and `FreeContext` cover the handle logic.
- `Assembled` is the specification of the segment loop. `AssembleSegments`
  is that loop written imperatively and proved against it.
- `FindFirstNotOf` and `FindLastNotOf` model the two `std::string` searches.
  `Trim` models the `substr` built from them. `TrimIsSlice` says the result
  is a slice of the input with only white space around it. Together with
  `Trim`'s emptiness and edge clauses, that pins the result down uniquely,
  as `TrimCharacterised` shows.
- `TranscribeResult` is the function for the whole of `transcribe`.
  `Transcribe` is the same steps written as a method.

`Reply.engineInvoked` records whether `transcribe` got as far as
`whisper_full`. This makes "the engine is never called" a statement about
the result.

## Model

| member | source | states |
|---|---|---|
| WhisperJni.ContextOf | android/app/src/main/cpp/whisper-jni.cpp:35-36 | with 64-bit pointers, the handle-to-pointer cast gives null exactly for handle 0, and otherwise the context whose address is the handle |
| WhisperJni.InitContext | android/app/src/main/cpp/whisper-jni.cpp:19-29 | the returned handle is 0 exactly when the engine's load returned null; otherwise it is the loaded context's non-zero address |
| WhisperJni.ContextOfInitContext | android/app/src/main/cpp/whisper-jni.cpp:23-36 | casting the handle from `initContext` back to a pointer gives exactly the loaded context, or null after a failed load |
| WhisperJni.FreeContext | android/app/src/main/cpp/whisper-jni.cpp:90-94 | `whisper_free` is called exactly when the handle is non-zero, on that context; a zero handle is a no-op |
| WhisperJni.FreeContextAfterInit | android/app/src/main/cpp/whisper-jni.cpp:90-94 | with the handle `initContext` returns (lines 23-29), freeing the handle of a failed load does nothing; freeing the handle of a successful load frees exactly the loaded context |
| WhisperJni.SegmentText | android/app/src/main/cpp/whisper-jni.cpp:68-71 | a null segment contributes nothing; a present one contributes its text |
| WhisperJni.Assembled | android/app/src/main/cpp/whisper-jni.cpp:65-72 | the text the segment loop builds: the present segment texts in index order, with no separator |
| WhisperJni.AssembleSegments | android/app/src/main/cpp/whisper-jni.cpp:65-72 | the loop's text is the in-order concatenation of the present segment texts |
| WhisperJni.AssembledAppend | android/app/src/main/cpp/whisper-jni.cpp:65-72 | assembling two runs of segments in a row gives the two assembled texts in a row |
| WhisperJni.NullSegmentSkipped | android/app/src/main/cpp/whisper-jni.cpp:68-71 | a null segment contributes nothing, wherever it stands |
| WhisperJni.PresentSegmentKept | android/app/src/main/cpp/whisper-jni.cpp:68-71 | a present segment contributes its text unaltered, between the texts of the segments before and after it |
| WhisperJni.AssembledAllNull | android/app/src/main/cpp/whisper-jni.cpp:65-72 | with no segments, or only null ones, the assembled text is empty |
| WhisperJni.IsTrimSpace | android/app/src/main/cpp/whisper-jni.cpp:75-76 | a character is trimmed exactly when it is in the set `" \t\n\r"` |
| WhisperJni.IsTrimSpaceMeansTrimChar | android/app/src/main/cpp/whisper-jni.cpp:75-76 | `IsTrimSpace` holds exactly of the characters of the literal `" \t\n\r"` |
| WhisperJni.FindFirstNotOf | android/app/src/main/cpp/whisper-jni.cpp:75 | `npos` exactly when every character is one of the four; otherwise the index of a non-white-space character with only white space before it |
| WhisperJni.FindLastNotOf | android/app/src/main/cpp/whisper-jni.cpp:76 | `npos` exactly when every character is one of the four; otherwise the index of a non-white-space character with only white space after it |
| WhisperJni.Trim | android/app/src/main/cpp/whisper-jni.cpp:75-81 | the result is no longer than the input; it is empty exactly when the input is empty or all white space; a non-empty result neither starts nor ends with space, tab, newline or carriage return |
| WhisperJni.TrimIsSlice | android/app/src/main/cpp/whisper-jni.cpp:75-78 | the result is a contiguous, unaltered slice of the input, with only white space cut off before and after it |
| WhisperJni.TrimBounds | android/app/src/main/cpp/whisper-jni.cpp:75-80 | gives the start and end of that slice in the input |
| WhisperJni.TrimCharacterised | android/app/src/main/cpp/whisper-jni.cpp:75-81 | for white space `p` and `q`, and `t` empty or with non-white-space edges, trimming `p + t + q` gives exactly `t`, so the slice runs from the first to the last non-white-space character |
| WhisperJni.TrimIdempotent | android/app/src/main/cpp/whisper-jni.cpp:75-81 | trimming an already trimmed text returns it unchanged |
| WhisperJni.TrimKeepsOtherEdges | android/app/src/main/cpp/whisper-jni.cpp:75-76 | a text whose first and last characters are outside the four is returned unchanged, so only those four characters are trimmed |
| WhisperJni.TrimDropsLeadingSpace | android/app/src/main/cpp/whisper-jni.cpp:75 | a leading space, tab, newline or carriage return does not change the result |
| WhisperJni.TrimDropsTrailingSpace | android/app/src/main/cpp/whisper-jni.cpp:76 | a trailing space, tab, newline or carriage return does not change the result |
| WhisperJni.TranscribeResult | android/app/src/main/cpp/whisper-jni.cpp:32-85 | the engine runs exactly when the handle is non-zero. The result is `""` exactly when the handle is null, the status is non-zero, or the assembled text is all white space. A non-empty result has non-white-space edges. After a successful run it is an unaltered slice of the assembled segments with only white space around it |
| WhisperJni.NullHandleIgnoresEngine | android/app/src/main/cpp/whisper-jni.cpp:35-38 | a null handle gives `""` without running the engine, whatever the engine would report |
| WhisperJni.SuccessfulRunText | android/app/src/main/cpp/whisper-jni.cpp:60-84 | with a non-null handle and status 0, the returned text is the trimmed assembly of the segments |
| WhisperJni.FailedRunIgnoresSegments | android/app/src/main/cpp/whisper-jni.cpp:56-63 | a non-zero status gives `""`, never a partial transcript, whatever segments exist |
| WhisperJni.InteriorSpaceKept | android/app/src/main/cpp/whisper-jni.cpp:65-81 | segments `" foo"` and `"bar "` give `"foobar"` |
| WhisperJni.NullBetweenSegmentsKeepsSpace | android/app/src/main/cpp/whisper-jni.cpp:65-81 | segments `"  hello "`, null and `"world  "` give `"hello world"`: white space inside the text is kept |
| WhisperJni.Transcribe | android/app/src/main/cpp/whisper-jni.cpp:32-85 | done step by step (guard, run, status guard, loop, trim), `transcribe` returns exactly what `TranscribeResult` specifies |

## Left out

- ContextOf: pointers are taken to be 64 bits wide, as on the 64-bit Android ABIs. On a 32-bit ABI the cast keeps only the low 32 bits of the handle, so a handle such as `0x1_0000_0000` is null there, while the model treats it as a context. Only handles that `initContext` returned are modelled faithfully on both widths.

- JNI marshaling is left out because it has no logic of its own. This covers `GetStringUTFChars`/`ReleaseStringUTFChars`, `GetArrayLength`, `GetFloatArrayElements`/`ReleaseFloatArrayElements`, `NewStringUTF`, and the conversion between UTF-8 and Java strings. Strings are sequences of characters, and segment texts are taken as given.
- The whisper engine is left out because it is an external library: `whisper_context_default_params`, `whisper_init_from_file_with_params`, `whisper_full`, `whisper_full_n_segments`, `whisper_full_get_segment_text` and `whisper_free`. Their results are inputs. The segment count is the length of the segment list, so a negative count cannot arise.
- The model path is not modelled. Only the null or non-null outcome of the load it feeds is.
- The audio samples and the duration `numSamples / 16000.0f` are left out. They are floating point, and the duration is only logged.
- The decoding parameters (lines 45-54) are recorded as the constant `TRANSCRIBE_PARAMS` and nothing else. Nothing in the bridge depends on them.
- All `LOGI`/`LOGE` logging is left out because it is I/O.
- Threads, concurrent calls on one handle, double free and use after free are left out. The bridge does not guard against them: it only checks for null.
- A segment text is a C string, so it cannot contain a NUL character. The model does not restrict segment texts. Because of that, it does not model how `NewStringUTF(text.c_str())` would cut the text at a NUL.
