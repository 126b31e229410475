# VRCTalk OSC codec, listener and Whisper helpers in Dafny

VRCTalk puts speech, transcribed by Whisper and optionally translated, into
the VRChat chatbox over OSC (Open Sound Control) datagrams, and listens for
VRChat's mute parameter. This project models the parts of it that are
exact byte, string and state logic, and proves what they do:

- **OSC encoder** of the Python sender script (`encode_osc_string`,
  `encode_osc_message`): OSC-strings (UTF-8, a NUL, zero padding to a
  multiple of four bytes), type-tag strings and int32/float32/string
  payloads, including the Python quirk that a `bool` is caught by the
  `int` branch and sent as tag `i` with 0 or 1.
- **OSC decoder** of the Python receiver script (`decode_osc_string`,
  `decode_osc_message`), with its exact failure modes: `None` for a bad
  header or any exception, `None` arguments for unterminated strings,
  unchecked padding, and partial acceptance after an unknown tag character.
  The encoder and decoder are tied together by a round-trip theorem, and the
  two hand-built datagrams of the integration workflow test are shown to be
  rejected by the receiver.
- **Whisper helpers** (`src-tauri/src/whisper.rs`): upload validation and
  format detection, raw little-endian 16-bit PCM decoding, the stereo
  downmix with Rust's truncating division and `as i16`, the language code
  given to Whisper (including the panic of slicing a string inside a
  character), the clean-up of the transcription (`trim`, the `replace`
  chain, `trim`), the model table, the "is model downloaded" decision over
  an abstract file system, and the single-slot model cache of
  `whisper_transcribe` with its mutex poisoning.
- **Listener and send commands** (`src-tauri/src/lib.rs`): the fixed
  messages `send_typing` and `send_message` build, the once-guard of
  `start_vrc_listener`, and the listener thread turning decoded packets into
  mute events, with its reconnect behaviour, over a finite trace of
  receive outcomes.

Modules: `Common` (bytes, Option/Result, OSC padding), `Int32` (`struct`
`>i`), `Utf8` (strict UTF-8), `OscSender`, `OscReceiver`, `OscRoundTrip`,
`OscExamples`, `WhisperAudio`, `WhisperModels`, `WhisperTranscribe`,
`Listener`.

The Python sender script encodes booleans with tag `i`, not `T`/`F` (the Rust commands send `Bool(true)` through `rosc`, which tags it `T`); an unknown type
character keeps the arguments decoded so far instead of rejecting the
message; bundles are decoded and their top-level messages dispatched; there
is no rate limiter, text-length cap, typing state machine or typing timeout
anywhere in the code.

## Model

| member | source | states |
|---|---|---|
| Common.PaddedLengthBounds | test_osc_sender.py:18-20 | the padded size of `n` bytes is a multiple of 4, strictly above `n` and at most `n + 4` |
| Common.PaddingIsAlignment | test_osc_sender.py:16-20 | text, the NUL and the padding computed as `4 - (len + 1) % 4` (0 when that is 4) fill exactly the least multiple of 4 above the text length |
| Common.ZerosAreZero | test_osc_sender.py:20 | `b'\x00' * n` is `n` zero bytes |
| Int32.Pack | test_osc_sender.py:38 | `struct.pack('>i', n)` gives four bytes whose top bit is set exactly for negative `n` |
| Int32.Unpack | test_osc_receiver.py:48 | `struct.unpack('>i', ...)`: the result is an int32, negative exactly when the top bit of the first byte is set |
| Int32.UnpackPack | test_osc_receiver.py:48 | unpacking the packed bytes of an int32 gives the int back |
| Int32.PackUnpack | test_osc_receiver.py:48 | every four bytes are the packing of what they unpack to |
| Utf8.Encode | test_osc_sender.py:14 | `s.encode('utf-8')`: one to four bytes per character; its inverse is proved in `Utf8.DecodeEncode` and `Utf8.EncodeDecode` |
| Utf8.Decode | test_osc_receiver.py:19 | strict `.decode('utf-8')`, None where Python raises; no contract of its own, its properties are the rows `Utf8.DecodeEncode` and `Utf8.EncodeDecode` |
| Utf8.EncodeNoZero | test_osc_sender.py:14 | the UTF-8 of NUL-free text holds no zero byte |
| Utf8.EncodeCharZero | test_osc_sender.py:14 | only NUL encodes to a zero byte, and to that byte alone |
| Utf8.DecodeEncode | test_osc_receiver.py:19 | strict decoding of the UTF-8 of any string gives the string back |
| Utf8.EncodeDecode | test_osc_receiver.py:19 | bytes that decode are the encoding of what they decode to |
| Utf8.EncodeAscii | test_osc_sender.py:14 | on ASCII text the UTF-8 bytes are the code points |
| Utf8.EncodeAppend | test_osc_sender.py:14 | encoding distributes over concatenation |
| OscSender.EncodeOscString | test_osc_sender.py:12-21 | `encode_osc_string`: the UTF-8 bytes, a NUL, then `Padding` zeros; no contract of its own, its layout and alignment are the next two rows |
| OscSender.OscStringLayout | test_osc_sender.py:12-21 | an OSC-string is the UTF-8 bytes followed by zeros only, its length the least multiple of 4 strictly above the byte length (one to four zeros) |
| OscSender.OscStringAligned | test_osc_sender.py:12-21 | every OSC-string is a whole number of 4-byte units |
| OscSender.TypeTags | test_osc_sender.py:28-44 | the tag characters the argument loop appends, one per argument it does not skip; its properties are `OscSender.TagsOnePerSupportedArg` and `OscSender.BoolEncodedAsInt` |
| OscSender.Payload | test_osc_sender.py:32-44 | the bytes the argument loop appends, or the error of the first int `struct.pack` refuses (floats are opaque bytes and never fail); its properties are `OscSender.PayloadFailsIffIntOutOfRange` and `OscSender.PayloadAligned` |
| OscSender.MessageBytes | test_osc_sender.py:23-49 | `encode_osc_message` as one expression: address, `,`-tag string and payload; the loop is proved equal to it in `OscSender.EncodeOscMessage` |
| OscSender.EncodeOscMessage | test_osc_sender.py:23-49 | the loop returns address OSC-string ++ `,`-tag OSC-string ++ payloads, or the error of the first int `struct.pack` refuses (floats are opaque bytes and never fail) |
| OscSender.TagsOnePerSupportedArg | test_osc_sender.py:28-44 | the tag string has one character per argument that is not skipped, and its k-th character is the tag of the k-th such argument (`s` for a string, `f` for a float, `i` for an int or a bool), never `T` or `F` |
| OscSender.PayloadIgnoresOther | test_osc_sender.py:32-44 | an argument that is not str, int or float adds no bytes |
| OscSender.BoolEncodedAsInt | test_osc_sender.py:36-44 | a bool takes the int branch: tag `i` and bytes 00 00 00 01 or 00 00 00 00 |
| OscSender.PayloadFailsIffIntOutOfRange | test_osc_sender.py:36-38 | encoding fails exactly when some int argument lies outside int32 (floats are opaque bytes and never fail) |
| OscSender.PayloadAligned | test_osc_sender.py:32-44 | the payload is a whole number of 4-byte units |
| OscSender.MessageAligned | test_osc_sender.py:26-49 | the whole datagram is a whole number of 4-byte units |
| OscSender.TypingScenario | test_osc_sender.py:23-49 | the message of the first sender test (line 76) is 24 bytes: `/chatbox/typing`, one NUL, `,i\0\0`, then 00 00 00 01 |
| OscReceiver.DecodeOscString | test_osc_receiver.py:13-24 | `decode_osc_string`: no contract of its own; what it returns and when it raises are the next rows |
| OscReceiver.DecodeArgs | test_osc_receiver.py:40-61 | the argument loop after the type tag, by recursion on the tag characters; its behaviour per tag is `OscReceiver.UnknownTagStops`, `OscReceiver.UnterminatedStringArg` and `OscReceiver.ArgumentWidths` |
| OscReceiver.DecodeMessage | test_osc_receiver.py:26-69 | `decode_osc_message`; the header rules are `OscReceiver.AddressRequired` and `OscReceiver.TypeTagMustOpenWithComma`, the loop is proved equal to it in `OscReceiver.DecodeOscMessage` |
| OscReceiver.FindZeroSpec | test_osc_receiver.py:15 | `find` gives the first zero at or after the start, and -1 exactly when there is none |
| OscReceiver.DecodeOscStringUnterminated | test_osc_receiver.py:15-17 | `(None, len(data))` exactly when no NUL follows the offset |
| OscReceiver.DecodeOscStringReturned | test_osc_receiver.py:19-24 | a returned string is the text of the bytes up to the first NUL, and the next offset is that NUL plus one plus the padding |
| OscReceiver.DecodeOscStringFound | test_osc_receiver.py:19-24 | a returned string's bytes stand at the offset, NUL-free, a NUL follows, and the cursor moves by the padded length, possibly past the end of the data |
| OscReceiver.DecodeOscStringAt | test_osc_receiver.py:13-24 | conversely, NUL-free UTF-8 bytes followed by a NUL decode to their text with the cursor past the padded string |
| OscReceiver.DecodeOscStringRaises | test_osc_receiver.py:19 | the decoder raises exactly when the bytes before the first NUL are not UTF-8 |
| OscReceiver.AddressRequired | test_osc_receiver.py:30-32 | an empty or unterminated address gives None |
| OscReceiver.TypeTagMustOpenWithComma | test_osc_receiver.py:35-37 | a missing, empty, unterminated or not `,`-led type tag gives None |
| OscReceiver.UnknownTagStops | test_osc_receiver.py:59-61 | everything from an unknown type character on is ignored and the arguments before it are kept |
| OscReceiver.UnterminatedStringArg | test_osc_receiver.py:44-46 | an unterminated `s` argument appends None and moves the cursor to the end of the data |
| OscReceiver.ArgumentWidths | test_osc_receiver.py:47-58 | `i`/`f` with fewer than four bytes left raise; `T`/`F` append True/False and read no bytes |
| OscReceiver.DecodeOscMessage | test_osc_receiver.py:26-69 | the cursor loop returns what the argument recursion defines, None on every exception |
| OscRoundTrip.DecodeEncodedString | test_osc_receiver.py:13-24 | an OSC-string of NUL-free text decodes back to the text, wherever it stands, with the cursor right after it |
| OscRoundTrip.RoundTrip | test_osc_receiver.py:26-66 | a non-empty NUL-free address with NUL-free strings and int32 ints encodes, and decodes back to the address and the arguments, bools as 0/1 and skipped arguments absent |
| OscExamples.EmptyTypeTagRejected | test_osc_receiver.py:35-37 | a NUL where the type tag should start makes the whole datagram None |
| OscExamples.ChatboxDatagramRejected | test_integration_workflow.py:138 | the hand-built chatbox datagram decodes to None |
| OscExamples.TypingDatagramRejected | test_integration_workflow.py:139 | the hand-built typing datagram decodes to None |
| WhisperAudio.ValidateAudioData | src-tauri/src/whisper.rs:28-49 | accepted exactly when the data is non-empty and at most 20,000,000 bytes |
| WhisperAudio.DetectAudioFormat | src-tauri/src/whisper.rs:52-64 | an error under 4 bytes, WAV exactly when the data opens with `RIFF`, PCM otherwise; nothing in the code calls it: the transcription path chooses WAV when `WavReader::new` succeeds (whisper.rs:72) |
| WhisperAudio.FromToLeBytes | src-tauri/src/whisper.rs:129 | `from_le_bytes` undoes `to_le_bytes` |
| WhisperAudio.ToFromLeBytes | src-tauri/src/whisper.rs:129 | `to_le_bytes` undoes `from_le_bytes` |
| WhisperAudio.LeSamples | src-tauri/src/whisper.rs:127-130 | `len / 2` samples, sample `k` the little-endian i16 of bytes `2k` and `2k+1` |
| WhisperAudio.RawPcmSamples | src-tauri/src/whisper.rs:123-130 | raw PCM is refused exactly when its length is odd |
| WhisperAudio.RawPcmRoundTrip | src-tauri/src/whisper.rs:123-130 | reading back samples written little-endian gives the samples |
| WhisperAudio.Mix | src-tauri/src/whisper.rs:88 | the i32 mean truncated toward zero, never wrapped by `as i16`, and between the two channels |
| WhisperAudio.Downmix | src-tauri/src/whisper.rs:85-89 | an even count gives half as many samples, each the mix of its pair; an odd count panics on the last chunk |
| WhisperAudio.DownmixSameChannels | src-tauri/src/whisper.rs:85-89 | a channel interleaved with itself mixes back to the channel |
| WhisperAudio.WhisperLanguage | src-tauri/src/whisper.rs:156-175 | the language code given to Whisper, None for the panic of the slice; its cases are the `ListedLanguages`, `UnlistedLanguage` and `KanjiLanguagePanics` rows |
| WhisperAudio.BytePrefixSpec | src-tauri/src/whisper.rs:173 | `&s[..n]` is the prefix of `s` taking exactly `n` bytes, and panics exactly when no prefix does |
| WhisperAudio.LanguageTableShape | src-tauri/src/whisper.rs:157-172 | every arm pairs a five-character regional tag with its own two-letter code, and the codes all differ |
| WhisperAudio.ListedLanguages | src-tauri/src/whisper.rs:157-172 | each listed regional tag and each bare code maps to its two-letter code |
| WhisperAudio.UnlistedLanguage | src-tauri/src/whisper.rs:173-174 | an unlisted tag under two bytes means English; a longer one gives the characters of its first two bytes, and panics exactly when no prefix is two bytes long |
| WhisperAudio.UnlistedAsciiLanguage | src-tauri/src/whisper.rs:173 | an unlisted ASCII tag is cut to its first two characters |
| WhisperAudio.KanjiLanguagePanics | src-tauri/src/whisper.rs:173 | a tag opening with a three-byte character makes the slice panic |
| WhisperAudio.Trim | src-tauri/src/whisper.rs:212 | `str::trim`: the leading and then the trailing Unicode white space removed; characterised by `WhisperAudio.TrimSpec` |
| WhisperAudio.TrimStart | src-tauri/src/whisper.rs:212 | removes exactly the leading white space |
| WhisperAudio.TrimEnd | src-tauri/src/whisper.rs:222 | removes exactly the trailing white space |
| WhisperAudio.TrimSpec | src-tauri/src/whisper.rs:212-222 | `trim` leaves the slice between the two white-space runs, and that slice is trimmed |
| WhisperAudio.TrimTrimmed | src-tauri/src/whisper.rs:222 | trimming a trimmed string changes nothing |
| WhisperAudio.RemoveAll | src-tauri/src/whisper.rs:214-221 | `replace(pat, "")`, scanning left to right; the result is never longer than the input (weaker than the source, see Left out) |
| WhisperAudio.RemoveAllAbsent | src-tauri/src/whisper.rs:214-221 | `replace(pat, "")` leaves text without `pat` unchanged |
| WhisperAudio.HallucinationTokens | src-tauri/src/whisper.rs:214-221 | the seven removed tokens, none of them empty |
| WhisperAudio.CleanTranscription | src-tauri/src/whisper.rs:212-223 | trim, the seven `replace` calls in order, trim; never longer than the input |
| WhisperAudio.CleanTranscriptionTrimmed | src-tauri/src/whisper.rs:212-223 | the cleaned transcription never opens or closes with white space |
| WhisperAudio.CleanTextKept | src-tauri/src/whisper.rs:212-223 | trimmed text without any token comes back unchanged |
| WhisperAudio.BlankAudioCleaned | src-tauri/src/whisper.rs:212-214 | `" [BLANK_AUDIO] "` cleans to the empty string |
| WhisperModels.ModelConfigs | src-tauri/src/whisper.rs:19-25 | five models, one file each |
| WhisperModels.FindConfig | src-tauri/src/whisper.rs:583-586 | the first row with the id asked for; characterised by `WhisperModels.FindConfigSpec` |
| WhisperModels.FindConfigSpec | src-tauri/src/whisper.rs:583-586 | the lookup returns a row with the id asked for, and nothing exactly when no row has it |
| WhisperModels.KnownModels | src-tauri/src/whisper.rs:19-25 | each of the five ids finds its own row |
| WhisperModels.ConfiguredFilesAreBin | src-tauri/src/whisper.rs:19-25 | every configured file is a `.bin` |
| WhisperModels.ModelDownloaded | src-tauri/src/whisper.rs:576-610 | the decision `whisper_is_model_downloaded` makes; its cases are the rows below |
| WhisperModels.IsModelDownloaded | src-tauri/src/whisper.rs:576-610 | the loop with early returns decides what `ModelDownloaded` defines |
| WhisperModels.NoDirectoryNotDownloaded | src-tauri/src/whisper.rs:576-580 | no directory means not downloaded, checked before the lookup, so even for an unknown id |
| WhisperModels.UnknownModelWithDirectory | src-tauri/src/whisper.rs:583-586 | an unknown id with a directory is an error |
| WhisperModels.KnownModelDownloaded | src-tauri/src/whisper.rs:591-607 | a known model is downloaded exactly when each of its files is present with at least 10,000,000 bytes |
| WhisperModels.TranscriptionFileOfSmallerModels | src-tauri/src/whisper.rs:683 | for tiny, base, small and medium the file transcription loads is the configured file |
| WhisperModels.LargeModelFileMissingAsWritten | src-tauri/src/whisper.rs:683 | for large it is not: a directory holding only the downloaded file reads as downloaded, yet the file transcription loads is missing |
| WhisperModels.DownloadedModelHasFile | src-tauri/src/whisper.rs:576-610 | whatever reads as downloaded holds the configured file transcription should load, at full size |
| WhisperTranscribe.Locked | src-tauri/src/whisper.rs:701-742 | the locked section: poison check, reload rule, language slice and inference; its properties are the lemma rows below |
| WhisperTranscribe.Transcription | src-tauri/src/whisper.rs:645-746 | `whisper_transcribe` as written, looking for `ggml-<model>.bin`; the state method is proved equal to it in `WhisperTranscribe.WhisperState.Transcribe` |
| WhisperTranscribe.TranscriptionIntended | src-tauri/src/whisper.rs:678-687 | the same command looking for the file the model table downloads (see Findings) |
| WhisperTranscribe.WhisperState.constructor | src-tauri/src/whisper.rs:14-16 | the shared state starts with nothing cached and the mutex healthy; the code shown never builds the state (lib.rs registers no `.manage(...)`), so this empty, healthy start is an assumption |
| WhisperTranscribe.WhisperState.Transcribe | src-tauri/src/whisper.rs:645-746 | the result and the new cache and poison flag are those the checks (the file looked for being `ggml-<model>.bin`, as written), the reload rule and the locked inference define |
| WhisperTranscribe.SameModelKeepsSlot | src-tauri/src/whisper.rs:708-722 | asking for the cached model never reloads: loading cannot fail and the slot stays |
| WhisperTranscribe.SlotHoldsRequestedModel | src-tauri/src/whisper.rs:724-732 | once the lock is taken and loading has not failed, the slot holds the requested model |
| WhisperTranscribe.LoadFailureKeepsState | src-tauri/src/whisper.rs:724-729 | a load is attempted exactly when the slot is empty or holds another model; a failed load leaves the state as it was |
| WhisperTranscribe.PoisonIsPermanent | src-tauri/src/whisper.rs:703-705 | a poisoned mutex fails every later call and nothing changes any more |
| WhisperTranscribe.PoisonedOnlyByPanic | src-tauri/src/whisper.rs:701-742 | only the panic of the language slice poisons the mutex |
| WhisperTranscribe.LockedTrimmed | src-tauri/src/whisper.rs:734-739 | the locked section's text is the cleaned inference result |
| WhisperTranscribe.TranscriptionTrimmed | src-tauri/src/whisper.rs:645-746 | a successful transcription never opens or closes with white space |
| WhisperTranscribe.EarlyExitsKeepState | src-tauri/src/whisper.rs:660-687 | a call stopped before the lock leaves the cache alone |
| WhisperTranscribe.LargeModelTranscriptionStops | src-tauri/src/whisper.rs:678-687 | as written, "large" with only the downloaded `ggml-large-v3.bin` reads as downloaded, yet the command stops with the missing `ggml-large.bin` and the state unchanged |
| WhisperTranscribe.DownloadedModelReachesLock | src-tauri/src/whisper.rs:660-687 | with the intended file check, a downloaded model with a valid upload and speech always reaches the lock |
| WhisperTranscribe.SmallerModelsAsIntended | src-tauri/src/whisper.rs:678-687 | for tiny, base, small and medium the command as written and the intended one agree on every input |
| Listener.TypingMessage | src-tauri/src/lib.rs:20-23 | `send_typing` builds `/chatbox/typing` with `[Bool(true)]` |
| Listener.ChatboxMessage | src-tauri/src/lib.rs:38-41 | `send_message` builds `/chatbox/input` with the text unchanged and `Bool(true)` |
| Listener.ChatboxMessageInjective | src-tauri/src/lib.rs:38-41 | distinct texts give distinct messages: nothing is cut or altered |
| Listener.NoTypingOff | src-tauri/src/lib.rs:20-41 | neither command builds a message that switches typing off |
| Listener.MuteOf | src-tauri/src/lib.rs:73-79 | the mute value a message carries: the Bool first argument of a MuteSelf message; characterised by `Listener.MessageMute` |
| Listener.PacketMutes | src-tauri/src/lib.rs:80-94 | the mute values of a packet, a bundle's top-level messages in order; its properties are the rows below |
| Listener.MessageMute | src-tauri/src/lib.rs:73-79 | a message gives a mute event exactly when it is MuteSelf with a Bool first argument, and then that Bool |
| Listener.MuteIgnoresLaterArgs | src-tauri/src/lib.rs:75-77 | arguments after the first do not matter |
| Listener.PythonMuteTestIgnored | src-tauri/src/lib.rs:75-76 | the Python mute test (test_osc_sender.py:104-114) sends its bool as tag `i`, and an Int first argument gives no event |
| Listener.BundleMutesAppend | src-tauri/src/lib.rs:82-94 | a bundle's events are its top-level messages' events, in order |
| Listener.NestedBundleIgnored | src-tauri/src/lib.rs:84-85 | a bundle inside a bundle gives nothing |
| Listener.UndecodableIgnored | src-tauri/src/lib.rs:98-100 | bytes that do not decode emit nothing and do not stop the loop |
| Listener.FailedRebindEndsLoop | src-tauri/src/lib.rs:103-119 | after a receive error whose rebind fails nothing more is read |
| Listener.ListenerEvents | src-tauri/src/lib.rs:58-130 | what the listener thread emits over a trace; the thread is proved equal to it in `Listener.RunListener` |
| Listener.RunListener | src-tauri/src/lib.rs:58-130 | the thread emits "connected" and the loop's events, or "error" and the bind error |
| Listener.App.constructor | src-tauri/src/lib.rs:13 | the once-flag starts unset |
| Listener.App.StartVrcListener | src-tauri/src/lib.rs:52-56 | the first call sets the flag and runs the listener; every later call returns with nothing emitted |

## Left out

- Sockets and all I/O: `send_test_message`, the receiver's `main` loop, UDP bind/send/receive and event emission to the front end. The listener works on a finite trace of receive outcomes, not the endless loop.
- The `rosc` encoder and decoder used by `lib.rs`: foreign code. Packets reach the listener already decoded, and the send commands are modelled up to the message they build.
- Floating point: `f` arguments are four opaque bytes both ways (no IEEE-754 packing); sample normalisation to `f32`, resampling and `detect_speech_activity` are left out.
- WAV parsing by `hound`: the WAV branch of `process_audio_for_whisper` is modelled from its `i16` samples on (the downmix); the decision WAV or raw PCM, the sample decoding and the speech check reach `whisper_transcribe` as one parameter (unreadable, silent or speech; a failing speech check counts as speech, as in the code). The panic of a stereo WAV with an odd sample count (whisper.rs:88, modelled as None by `WhisperAudio.Downmix`) is not modelled in the command; it comes before the lock, so the cache is unaffected.
- The warning printed for uploads under 44 bytes: output only.
- whisper-rs: whether a model loads and what inference returns are parameters; the joined segment text (segments that fail to read are skipped in the code) is one input string.
- Downloads, `get_models_dir`, `get_model_path` and `whisper_get_downloaded_models`: file-system and network work. The file system is a map from model id to a map from file name to size; the model name is the id (the path's `file_name`).
- Concurrency: the `Mutex`, `spawn_blocking`, `AtomicBool` and thread spawn keep only their sequential meaning (the cache slot with its poison flag, the once-flag).
- Python `str` values holding lone surrogates: Dafny's `char` is a Unicode scalar value, the set strict UTF-8 accepts.
- OscSender.PayloadFailsIffIntOutOfRange: a finite float beyond the largest `f32` (such as `1e39`) makes `struct.pack('>f')` raise `OverflowError` at test_osc_sender.py:41; floats are opaque bytes here, so that error path is not modelled and only int arguments can make encoding fail.
- WhisperAudio.RemoveAll: states only that it removes nothing from text without the pattern and never lengthens; removing a token can create a new occurrence of it, which is not characterised.

## Findings

| source | as written | input that shows it | evidently intended | confidence | as-written member | corrected member |
|---|---|---|---|---|---|---|
| src-tauri/src/whisper.rs:683 | transcription loads `ggml-<model>.bin`, while the table downloads `ggml-large-v3.bin` for "large" (whisper.rs:24) | model "large" whose directory holds only `ggml-large-v3.bin` of 10,000,000 bytes: reported downloaded, then "Model file missing" | load the file the table downloads for the model | not executed | WhisperTranscribe.LargeModelTranscriptionStops | WhisperTranscribe.DownloadedModelReachesLock |
