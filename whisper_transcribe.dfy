/**
 * `whisper_transcribe` (src-tauri/src/whisper.rs): the checks before the
 * lock, then, under the lock, the single cached Whisper context that is
 * reloaded whenever another model is asked for.
 *
 * The context itself is foreign (whisper-rs); the cache keeps only the name
 * of the model it was loaded from. Whether loading succeeds and what the
 * inference returns are parameters. A panic inside the locked section
 * poisons the mutex, after which every lock attempt fails.
 */
module WhisperTranscribe {
  import opened Common
  import opened WhisperAudio
  import opened WhisperModels

  /** The ways `whisper_transcribe` fails. */
  datatype TranscribeError =
    | InvalidAudio(reason: string)    // validation or sample decoding refused the upload
    | ModelFileMissing(file: string)  // the model file is not on disk
    | MutexPoisoned                   // an earlier call panicked while holding the lock
    | LoadFailed                      // `WhisperContext::new` failed
    | TaskPanicked                    // the blocking task panicked: the join error
    | InferenceFailed(reason: string) // state creation, inference or segment count failed

  /** What decoding the upload and the speech check came to, before any model is touched. */
  datatype Heard = Unreadable(reason: string) | Silent | Speech

  /** The shared state: the cached model name (None before the first load) and the mutex's poison flag. */
  datatype Cache = Cache(slot: Option<string>, poisoned: bool)

  /** Reload when nothing is cached or another model is cached. */
  predicate NeedsReload(slot: Option<string>, model: string)
  {
    slot.None? || slot.value != model
  }

  /**
   * The locked section: refuse a poisoned mutex; reload when needed, leaving
   * the slot as it was if loading fails; then map the language (a panic
   * there poisons the mutex with the new model already cached) and run the
   * inference, cleaning its text.
   */
  function Locked(c: Cache, model: string, language: string, loads: bool, segments: Result<string, string>)
    : (Cache, Result<string, TranscribeError>)
  {
    if c.poisoned then (c, Err(MutexPoisoned))
    else if NeedsReload(c.slot, model) && !loads then (c, Err(LoadFailed))
    else
      var slot := if NeedsReload(c.slot, model) then Some(model) else c.slot;
      match WhisperLanguage(language)
      case None => (Cache(slot, true), Err(TaskPanicked))
      case Some(_) =>
        match segments
        case Err(e) => (Cache(slot, false), Err(InferenceFailed(e)))
        case Ok(text) => (Cache(slot, false), Ok(CleanTranscription(text)))
  }

  /**
   * The whole command, with the name of the model file it looks for as a
   * parameter: validate the upload, stop early on unreadable or silent audio,
   * check that the file is in the model's directory, then the locked section.
   */
  function TranscriptionChecking(file: string, c: Cache, audio: seq<byte>, heard: Heard, models: ModelsDir, model: string,
                                 language: string, loads: bool, segments: Result<string, string>)
    : (Cache, Result<string, TranscribeError>)
  {
    match ValidateAudioData(audio)
    case Err(e) => (c, Err(InvalidAudio(e)))
    case Ok(_) =>
      match heard
      case Unreadable(e) => (c, Err(InvalidAudio(e)))
      case Silent => (c, Ok(""))
      case Speech =>
        if model !in models || file !in models[model] then (c, Err(ModelFileMissing(file)))
        else Locked(c, model, language, loads, segments)
  }

  /** `whisper_transcribe` as written: it looks for `ggml-<model>.bin`. */
  function Transcription(c: Cache, audio: seq<byte>, heard: Heard, models: ModelsDir, model: string,
                         language: string, loads: bool, segments: Result<string, string>)
    : (Cache, Result<string, TranscribeError>)
  {
    TranscriptionChecking(TranscriptionFileAsWritten(model), c, audio, heard, models, model, language, loads, segments)
  }

  /** `whisper_transcribe` as evidently intended: it looks for the file the model table downloads. */
  function TranscriptionIntended(c: Cache, audio: seq<byte>, heard: Heard, models: ModelsDir, model: string,
                                 language: string, loads: bool, segments: Result<string, string>)
    : (Cache, Result<string, TranscribeError>)
  {
    TranscriptionChecking(ModelFile(model), c, audio, heard, models, model, language, loads, segments)
  }

  /** The Whisper state shared by all transcriptions. */
  class WhisperState {
    var slot: Option<string>
    var poisoned: bool

    constructor ()
      ensures slot == None && !poisoned
    {
      slot := None;
      poisoned := false;
    }

    /** `whisper_transcribe` against this state. */
    method Transcribe(audio: seq<byte>, heard: Heard, models: ModelsDir, model: string,
                      language: string, loads: bool, segments: Result<string, string>)
      returns (r: Result<string, TranscribeError>)
      modifies this
      ensures (Cache(slot, poisoned), r)
        == Transcription(Cache(old(slot), old(poisoned)), audio, heard, models, model, language, loads, segments)
    {
      var valid := ValidateAudioData(audio);
      if valid.Err? {
        return Err(InvalidAudio(valid.error));
      }
      match heard {
        case Unreadable(e) => return Err(InvalidAudio(e));
        case Silent => return Ok("");
        case Speech =>
      }
      var file := TranscriptionFileAsWritten(model);
      if model !in models || file !in models[model] {
        return Err(ModelFileMissing(file));
      }
      if poisoned {
        return Err(MutexPoisoned);
      }
      var needsReload := slot.None? || slot.value != model;
      if needsReload {
        if !loads {
          return Err(LoadFailed);
        }
        slot := Some(model);
      }
      var lang := WhisperLanguage(language);
      if lang.None? {
        poisoned := true;
        return Err(TaskPanicked);
      }
      match segments {
        case Err(e) => r := Err(InferenceFailed(e));
        case Ok(text) => r := Ok(CleanTranscription(text));
      }
    }
  }

  /** Asking for the cached model never reloads: loading cannot fail and the slot stays. */
  lemma SameModelKeepsSlot(c: Cache, model: string, language: string, loads: bool, segments: Result<string, string>)
    requires c.slot == Some(model)
    ensures Locked(c, model, language, loads, segments).0.slot == c.slot
    ensures Locked(c, model, language, loads, segments).1 != Err(LoadFailed)
  {
  }

  /** Once the lock is taken and loading has not failed, the slot holds the model asked for. */
  lemma SlotHoldsRequestedModel(c: Cache, model: string, language: string, loads: bool, segments: Result<string, string>)
    requires Locked(c, model, language, loads, segments).1 !in {Err(MutexPoisoned), Err(LoadFailed)}
    ensures Locked(c, model, language, loads, segments).0.slot == Some(model)
  {
  }

  /** A load is attempted exactly when nothing or another model is cached; a failed one leaves the state alone. */
  lemma LoadFailureKeepsState(c: Cache, model: string, language: string, loads: bool, segments: Result<string, string>)
    ensures Locked(c, model, language, loads, segments).1 == Err(LoadFailed)
      <==> !c.poisoned && NeedsReload(c.slot, model) && !loads
    ensures Locked(c, model, language, loads, segments).1 == Err(LoadFailed)
      ==> Locked(c, model, language, loads, segments).0 == c
  {
  }

  /** A poisoned mutex fails every later call, and nothing changes any more. */
  lemma PoisonIsPermanent(c: Cache, model: string, language: string, loads: bool, segments: Result<string, string>)
    requires c.poisoned
    ensures Locked(c, model, language, loads, segments) == (c, Err(MutexPoisoned))
  {
  }

  /** Only the language slice's panic poisons the mutex. */
  lemma PoisonedOnlyByPanic(c: Cache, model: string, language: string, loads: bool, segments: Result<string, string>)
    requires !c.poisoned && Locked(c, model, language, loads, segments).0.poisoned
    ensures Locked(c, model, language, loads, segments).1 == Err(TaskPanicked)
    ensures WhisperLanguage(language).None?
  {
  }

  /** A transcription that succeeds never opens or closes with white space. */
  lemma TranscriptionTrimmed(c: Cache, audio: seq<byte>, heard: Heard, models: ModelsDir, model: string,
                             language: string, loads: bool, segments: Result<string, string>)
    requires Transcription(c, audio, heard, models, model, language, loads, segments).1.Ok?
    ensures Trimmed(Transcription(c, audio, heard, models, model, language, loads, segments).1.value)
  {
    if ValidateAudioData(audio).Ok? && heard.Speech? && model in models && TranscriptionFileAsWritten(model) in models[model] {
      LockedTrimmed(c, model, language, loads, segments);
    }
  }

  /** The locked section's text is the cleaned transcription, which is trimmed. */
  lemma LockedTrimmed(c: Cache, model: string, language: string, loads: bool, segments: Result<string, string>)
    requires Locked(c, model, language, loads, segments).1.Ok?
    ensures segments.Ok? && Locked(c, model, language, loads, segments).1.value == CleanTranscription(segments.value)
    ensures Trimmed(Locked(c, model, language, loads, segments).1.value)
  {
    CleanTranscriptionTrimmed(segments.value);
  }

  /** Nothing before the lock touches the state: only a call that reaches it can change the cache. */
  lemma EarlyExitsKeepState(c: Cache, audio: seq<byte>, heard: Heard, models: ModelsDir, model: string,
                            language: string, loads: bool, segments: Result<string, string>)
    requires ValidateAudioData(audio).Err? || !heard.Speech? || model !in models || TranscriptionFileAsWritten(model) !in models[model]
    ensures Transcription(c, audio, heard, models, model, language, loads, segments).0 == c
  {
  }

  /**
   * As written, "large" never reaches the lock when the directory holds what
   * the download saved: the model reads as downloaded, yet the command stops
   * at the missing `ggml-large.bin` and leaves the state alone.
   */
  lemma LargeModelTranscriptionStops(c: Cache, audio: seq<byte>, language: string, loads: bool, segments: Result<string, string>)
    requires 0 < |audio| <= MaxAudioBytes
    ensures ModelDownloaded(LargeV3Only(), "large") == Ok(true)
    ensures Transcription(c, audio, Speech, LargeV3Only(), "large", language, loads, segments)
      == (c, Err(ModelFileMissing("ggml-large.bin")))
  {
    LargeModelFileMissingAsWritten();
    assert TranscriptionFileAsWritten("large") == "ggml-large.bin";
  }

  /** With the intended file check, a downloaded model with a valid upload and speech always reaches the lock. */
  lemma DownloadedModelReachesLock(c: Cache, audio: seq<byte>, models: ModelsDir, model: string,
                                   language: string, loads: bool, segments: Result<string, string>)
    requires 0 < |audio| <= MaxAudioBytes
    requires ModelDownloaded(models, model) == Ok(true)
    ensures TranscriptionIntended(c, audio, Speech, models, model, language, loads, segments)
      == Locked(c, model, language, loads, segments)
  {
    DownloadedModelHasFile(models, model);
  }

  /** For tiny, base, small and medium the command as written and the intended one agree on every input. */
  lemma SmallerModelsAsIntended(i: nat, c: Cache, audio: seq<byte>, heard: Heard, models: ModelsDir,
                                language: string, loads: bool, segments: Result<string, string>)
    requires i < 4
    ensures var model := ModelConfigs()[i].id;
      Transcription(c, audio, heard, models, model, language, loads, segments)
        == TranscriptionIntended(c, audio, heard, models, model, language, loads, segments)
  {
    var model := ModelConfigs()[i].id;
    TranscriptionFileOfSmallerModels();
    assert FindModel(model) == Some(ModelConfigs()[i]) by {
      KnownModels();
    }
    assert ModelFile(model) == TranscriptionFileAsWritten(model);
  }
}
