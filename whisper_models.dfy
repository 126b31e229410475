/**
 * Model management of the transcription backend (src-tauri/src/whisper.rs):
 * the table of downloadable models, the check that a model is on disk, and
 * the single cached Whisper context that `whisper_transcribe` reloads when
 * another model is asked for.
 *
 * The file system is a map from model id to that model's directory, and a
 * directory a map from file name to size in bytes.
 */
module WhisperModels {
  import opened Common

  /** One row of `MODEL_CONFIGS`: model id, Hugging Face repository, files to fetch. */
  datatype ModelConfig = ModelConfig(id: string, repo: string, files: seq<string>)

  /** `MODEL_CONFIGS`. */
  function ModelConfigs(): (r: seq<ModelConfig>)
    ensures |r| == 5
    ensures forall i :: 0 <= i < |r| ==> |r[i].files| == 1
  {
    [ ModelConfig("tiny", "ggerganov/whisper.cpp", ["ggml-tiny.bin"]),
      ModelConfig("base", "ggerganov/whisper.cpp", ["ggml-base.bin"]),
      ModelConfig("small", "ggerganov/whisper.cpp", ["ggml-small.bin"]),
      ModelConfig("medium", "ggerganov/whisper.cpp", ["ggml-medium.bin"]),
      ModelConfig("large", "ggerganov/whisper.cpp", ["ggml-large-v3.bin"]) ]
  }

  /** `iter().find(|(id, _, _)| *id == model)` over `configs`. */
  function FindConfig(configs: seq<ModelConfig>, model: string): Option<ModelConfig>
  {
    if configs == [] then None
    else if configs[0].id == model then Some(configs[0])
    else FindConfig(configs[1..], model)
  }

  /** The `MODEL_CONFIGS` row of `model`, if any. */
  function FindModel(model: string): Option<ModelConfig>
  {
    FindConfig(ModelConfigs(), model)
  }

  /** `find` returns a row with the id asked for, and finds one exactly when the table has it. */
  lemma {:induction false} FindConfigSpec(configs: seq<ModelConfig>, model: string)
    ensures FindConfig(configs, model).Some? ==>
      FindConfig(configs, model).value in configs && FindConfig(configs, model).value.id == model
    ensures FindConfig(configs, model).None? <==> forall i :: 0 <= i < |configs| ==> configs[i].id != model
  {
    if configs != [] {
      FindConfigSpec(configs[1..], model);
    }
  }

  /** Each of the five ids finds its own row. */
  lemma KnownModels()
    ensures forall i :: 0 <= i < |ModelConfigs()| ==> FindModel(ModelConfigs()[i].id) == Some(ModelConfigs()[i])
  {
  }

  /** A model directory: file name to size in bytes. */
  type Dir = map<string, nat>

  /** The models directory: model id to its directory, for the directories that exist. */
  type ModelsDir = map<string, Dir>

  /** `str::ends_with`. */
  predicate EndsWith(s: string, suffix: string)
  {
    |suffix| <= |s| && s[|s| - |suffix|..] == suffix
  }

  /** The least size a `.bin` model file must have to count as downloaded. */
  const MinModelBytes: nat := 10_000_000

  /** A required file counts when it exists, is not empty and, for a `.bin`, holds at least 10 MB. */
  predicate FileReady(dir: Dir, file: string)
  {
    file in dir && dir[file] != 0 && !(EndsWith(file, ".bin") && dir[file] < MinModelBytes)
  }

  /**
   * What `whisper_is_model_downloaded` decides: no directory means not
   * downloaded (before the id is looked up), an unknown id with a directory
   * is an error, and otherwise every required file must be ready.
   */
  function ModelDownloaded(models: ModelsDir, model: string): Result<bool, string>
  {
    if model !in models then Ok(false)
    else match FindModel(model)
      case None => Err("Unknown model: " + model)
      case Some(c) => Ok(forall i :: 0 <= i < |c.files| ==> FileReady(models[model], c.files[i]))
  }

  /** `whisper_is_model_downloaded`: the required files checked one by one, returning at the first that fails. */
  method IsModelDownloaded(models: ModelsDir, model: string) returns (r: Result<bool, string>)
    ensures r == ModelDownloaded(models, model)
  {
    if model !in models {
      return Ok(false);
    }
    var info := FindModel(model);
    if info.None? {
      return Err("Unknown model: " + model);
    }
    var dir := models[model];
    var files := info.value.files;
    var i := 0;
    while i < |files|
      invariant 0 <= i <= |files|
      invariant forall j :: 0 <= j < i ==> FileReady(dir, files[j])
    {
      var file := files[i];
      if file !in dir {
        return Ok(false);
      }
      var size := dir[file];
      if size == 0 {
        return Ok(false);
      }
      if EndsWith(file, ".bin") && size < MinModelBytes {
        return Ok(false);
      }
      i := i + 1;
    }
    return Ok(true);
  }

  /** Without a directory a model is reported as not downloaded, even an unknown one. */
  lemma NoDirectoryNotDownloaded(models: ModelsDir, model: string)
    requires model !in models
    ensures ModelDownloaded(models, model) == Ok(false)
  {
  }

  /** A directory for an id that is not in the table is an error. */
  lemma UnknownModelWithDirectory(models: ModelsDir, model: string)
    requires model in models
    requires forall i :: 0 <= i < |ModelConfigs()| ==> ModelConfigs()[i].id != model
    ensures ModelDownloaded(models, model).Err?
  {
    FindConfigSpec(ModelConfigs(), model);
  }

  /** True when every file of `c` is a `.bin`. */
  predicate AllBin(c: ModelConfig)
  {
    forall k :: 0 <= k < |c.files| ==> EndsWith(c.files[k], ".bin")
  }

  lemma ConfiguredFilesAreBin()
    ensures forall c :: c in ModelConfigs() ==> AllBin(c)
  {
  }

  /**
   * Every configured file is a `.bin`, so a known model is downloaded
   * exactly when each of its files is present with at least 10 MB.
   */
  lemma KnownModelDownloaded(models: ModelsDir, model: string)
    requires model in models && FindModel(model).Some?
    ensures var c := FindModel(model).value;
      ModelDownloaded(models, model)
        == Ok(forall k :: 0 <= k < |c.files| ==> c.files[k] in models[model] && models[model][c.files[k]] >= MinModelBytes)
  {
    FindConfigSpec(ModelConfigs(), model);
    ConfiguredFilesAreBin();
  }

  /**
   * The file `whisper_transcribe` loads, as written: `ggml-<model>.bin` in
   * the model's directory.
   */
  function TranscriptionFileAsWritten(model: string): string
  {
    "ggml-" + model + ".bin"
  }

  /** For the four smaller models that is the file the table downloads. */
  lemma TranscriptionFileOfSmallerModels()
    ensures forall i :: 0 <= i < 4 ==> TranscriptionFileAsWritten(ModelConfigs()[i].id) == ModelConfigs()[i].files[0]
  {
  }

  /** A models directory holding only what the download saves for "large": `ggml-large-v3.bin`, at the least size that counts. */
  function LargeV3Only(): ModelsDir
  {
    map["large" := map["ggml-large-v3.bin" := MinModelBytes]]
  }

  /**
   * For "large" it is not: a directory holding just the downloaded
   * `ggml-large-v3.bin` reads as downloaded, yet `ggml-large.bin` is missing
   * and transcription fails.
   */
  lemma LargeModelFileMissingAsWritten()
    ensures ModelDownloaded(LargeV3Only(), "large") == Ok(true)
    ensures TranscriptionFileAsWritten("large") !in LargeV3Only()["large"]
  {
    assert FindModel("large") == Some(ModelConfigs()[4]);
    assert TranscriptionFileAsWritten("large") != "ggml-large-v3.bin" by {
      assert |TranscriptionFileAsWritten("large")| != |"ggml-large-v3.bin"|;
    }
  }

  /**
   * The file transcription should load: the one the table downloads for a
   * known model, and `ggml-<model>.bin` otherwise.
   */
  function ModelFile(model: string): string
  {
    match FindModel(model)
    case Some(c) => FindConfigSpec(ModelConfigs(), model); c.files[0]
    case None => TranscriptionFileAsWritten(model)
  }

  /** Whatever reads as downloaded has the file transcription loads, at full size. */
  lemma DownloadedModelHasFile(models: ModelsDir, model: string)
    requires ModelDownloaded(models, model) == Ok(true)
    ensures model in models && ModelFile(model) in models[model]
    ensures models[model][ModelFile(model)] >= MinModelBytes
  {
    FindConfigSpec(ModelConfigs(), model);
    ConfiguredFilesAreBin();
    var c := FindModel(model).value;
    assert FileReady(models[model], c.files[0]);
  }
}
