/**
 * The integer audio helpers of the transcription backend
 * (src-tauri/src/whisper.rs): the size and format checks on the uploaded
 * bytes, the raw 16-bit PCM decoding, the stereo downmix, the language code
 * Whisper is given and the clean-up of the text it returns.
 */
module WhisperAudio {
  import opened Common
  import Utf8

  /** The largest upload `validate_audio_data` accepts. */
  const MaxAudioBytes: nat := 20_000_000

  /**
   * `validate_audio_data`: empty data and data over 20 MB are refused; a
   * short upload (under a WAV header's 44 bytes) only prints a warning.
   */
  function ValidateAudioData(audio: seq<byte>): (r: Result<(), string>)
    ensures r.Ok? <==> 0 < |audio| <= MaxAudioBytes
    ensures |audio| == 0 ==> r == Err("Audio data is empty")
  {
    if |audio| == 0 then Err("Audio data is empty")
    else if |audio| > MaxAudioBytes then Err("Audio data too large (>20MB)")
    else Ok(())
  }

  datatype AudioFormat = Wav | Pcm

  /** The four bytes "RIFF" that open a WAV file. */
  const Riff: seq<byte> := [0x52, 0x49, 0x46, 0x46]

  /** `detect_audio_format`: WAV when the data opens with "RIFF", raw PCM otherwise. */
  function DetectAudioFormat(audio: seq<byte>): (r: Result<AudioFormat, string>)
    ensures r.Err? <==> |audio| < 4
    ensures r == Ok(Wav) <==> 4 <= |audio| && audio[..4] == Riff
    ensures r == Ok(Pcm) <==> 4 <= |audio| && audio[..4] != Riff
  {
    if |audio| < 4 then Err("Audio data too short for format detection")
    else if audio[..4] == Riff then Ok(Wav)
    else Ok(Pcm)
  }

  /** A Rust `i16`. */
  type Sample = x: int | -0x8000 <= x < 0x8000

  /** `i16::from_le_bytes([lo, hi])`: two's complement, low byte first. */
  function FromLeBytes(lo: byte, hi: byte): Sample
  {
    var u := lo + 0x100 * hi;
    if u >= 0x8000 then u - 0x10000 else u
  }

  /** `i16::to_le_bytes`, the inverse of `FromLeBytes`. */
  function ToLeBytes(x: Sample): seq<byte>
  {
    var u := if x < 0 then x + 0x10000 else x;
    [u % 0x100, u / 0x100]
  }

  lemma FromToLeBytes(x: Sample)
    ensures FromLeBytes(ToLeBytes(x)[0], ToLeBytes(x)[1]) == x
  {
  }

  lemma ToFromLeBytes(lo: byte, hi: byte)
    ensures ToLeBytes(FromLeBytes(lo, hi)) == [lo, hi]
  {
  }

  /** `chunks_exact(2).map(from_le_bytes)` over data of even length. */
  function LeSamples(audio: seq<byte>): (r: seq<Sample>)
    requires |audio| % 2 == 0
    ensures |r| == |audio| / 2
    ensures forall k :: 0 <= k < |r| ==> r[k] == FromLeBytes(audio[2 * k], audio[2 * k + 1])
    decreases |audio|
  {
    if audio == [] then []
    else
      var rest := LeSamples(audio[2..]);
      assert forall k :: 1 <= k < |rest| + 1 ==> audio[2 * k] == audio[2..][2 * (k - 1)];
      [FromLeBytes(audio[0], audio[1])] + rest
  }

  /**
   * The raw-PCM branch of `process_audio_for_whisper`, up to the samples it
   * normalises: odd-length data is refused, otherwise every byte pair is one
   * little-endian sample.
   */
  function RawPcmSamples(audio: seq<byte>): (r: Result<seq<Sample>, string>)
    ensures r.Ok? <==> |audio| % 2 == 0
  {
    if |audio| % 2 != 0 then Err("Raw PCM data length must be even (16-bit samples)")
    else Ok(LeSamples(audio))
  }

  /** The bytes a sequence of samples is written as, low byte first. */
  function PcmBytes(samples: seq<Sample>): (r: seq<byte>)
    ensures |r| == 2 * |samples|
  {
    if samples == [] then [] else ToLeBytes(samples[0]) + PcmBytes(samples[1..])
  }

  /** Reading back written samples gives the samples. */
  lemma {:induction false} RawPcmRoundTrip(samples: seq<Sample>)
    ensures RawPcmSamples(PcmBytes(samples)) == Ok(samples)
  {
    var bs := PcmBytes(samples);
    assert |bs| % 2 == 0;
    var r := LeSamples(bs);
    forall k | 0 <= k < |samples| ensures r[k] == samples[k] {
      PcmBytesAt(samples, k);
      FromToLeBytes(samples[k]);
    }
    assert r == samples;
  }

  lemma {:induction false} PcmBytesAt(samples: seq<Sample>, k: nat)
    requires k < |samples|
    ensures PcmBytes(samples)[2 * k] == ToLeBytes(samples[k])[0]
    ensures PcmBytes(samples)[2 * k + 1] == ToLeBytes(samples[k])[1]
  {
    if k > 0 {
      PcmBytesAt(samples[1..], k - 1);
    }
  }

  /** Rust's `/ 2` on `i32`: the quotient truncated toward zero. */
  function HalfTowardZero(x: int): int
  {
    if x >= 0 then x / 2 else -((-x) / 2)
  }

  /** `as i16`: the low 16 bits read as two's complement. */
  function WrapToI16(x: int): Sample
  {
    (x + 0x8000) % 0x10000 - 0x8000
  }

  /**
   * One mono sample from a stereo pair: `((l as i32 + r as i32) / 2) as i16`.
   * The sum never leaves `i32` and the mean never leaves `i16`, so the cast
   * does not wrap, and the mean lies between the two channels.
   */
  function Mix(l: Sample, r: Sample): (m: Sample)
    ensures m == HalfTowardZero(l + r)
    ensures (if l <= r then l else r) <= m <= (if l <= r then r else l)
  {
    WrapToI16(HalfTowardZero(l + r))
  }

  /**
   * The stereo branch of `process_audio_for_whisper`: `chunks(2)` pairs the
   * interleaved samples, and each pair becomes one mono sample. An odd count
   * leaves a last chunk of one sample, whose `chunk[1]` panics: None.
   */
  function Downmix(samples: seq<Sample>): (r: Option<seq<Sample>>)
    ensures r.Some? <==> |samples| % 2 == 0
    ensures r.Some? ==> |r.value| == |samples| / 2
    ensures r.Some? ==> forall k :: 0 <= k < |r.value| ==> r.value[k] == Mix(samples[2 * k], samples[2 * k + 1])
    decreases |samples|
  {
    if samples == [] then Some([])
    else if |samples| == 1 then None
    else match Downmix(samples[2..])
      case None => None
      case Some(rest) =>
        assert forall k :: 1 <= k < |rest| + 1 ==> samples[2 * k] == samples[2..][2 * (k - 1)];
        Some([Mix(samples[0], samples[1])] + rest)
  }

  /** Interleaving a channel with itself and mixing gives the channel back. */
  lemma DownmixSameChannels(mono: seq<Sample>, stereo: seq<Sample>)
    requires |stereo| == 2 * |mono|
    requires forall k :: 0 <= k < |mono| ==> stereo[2 * k] == mono[k] && stereo[2 * k + 1] == mono[k]
    ensures Downmix(stereo) == Some(mono)
  {
    assert |stereo| % 2 == 0;
    var r := Downmix(stereo).value;
    forall k | 0 <= k < |mono| ensures r[k] == mono[k] {
      assert r[k] == Mix(mono[k], mono[k]);
    }
    assert r == mono;
  }

  /**
   * The tags the language `match` of `run_inference_on_context` lists, each
   * regional tag with the two-letter code it and the bare code map to.
   */
  const LanguageTable: seq<(string, string)> := [
    ("en-US", "en"), ("ja-JP", "ja"), ("ko-KR", "ko"), ("id-ID", "id"),
    ("zh-CN", "zh"), ("es-ES", "es"), ("fr-FR", "fr"), ("de-DE", "de"),
    ("it-IT", "it"), ("pt-PT", "pt"), ("ru-RU", "ru"), ("nl-NL", "nl"),
    ("pl-PL", "pl"), ("tr-TR", "tr"), ("vi-VN", "vi"), ("th-TH", "th")]

  /** The first listed arm that `lang` matches, tried in order. */
  function ListedCode(lang: string, table: seq<(string, string)>): Option<string>
  {
    if table == [] then None
    else if lang == table[0].0 || lang == table[0].1 then Some(table[0].1)
    else ListedCode(lang, table[1..])
  }

  /**
   * `&s[..n]` for a `str`: the leading characters of `s` whose UTF-8 bytes
   * number exactly `n`, or None when byte `n` falls inside a character or
   * past the end, where Rust panics.
   */
  function BytePrefix(s: string, n: nat): Option<string>
    decreases n
  {
    if n == 0 then Some("")
    else if s == [] then None
    else
      var w := |Utf8.EncodeChar(s[0])|;
      if w > n then None
      else match BytePrefix(s[1..], n - w)
        case None => None
        case Some(p) => Some([s[0]] + p)
  }

  lemma PrefixEncodeLength(s: string, k: nat)
    requires 1 <= k <= |s|
    ensures |Utf8.Encode(s[..k])| == |Utf8.EncodeChar(s[0])| + |Utf8.Encode(s[1..][..k - 1])|
  {
    assert s[..k] == [s[0]] + s[1..][..k - 1];
    Utf8.EncodeCons(s[0], s[1..][..k - 1]);
  }

  /**
   * `BytePrefix` finds the prefix of `s` that takes exactly `n` bytes, and
   * fails exactly when no prefix of `s` does.
   */
  lemma {:induction false} BytePrefixSpec(s: string, n: nat)
    ensures BytePrefix(s, n).Some? ==>
      var p := BytePrefix(s, n).value;
      |p| <= |s| && p == s[..|p|] && |Utf8.Encode(p)| == n
    ensures BytePrefix(s, n).None? <==> forall k :: 0 <= k <= |s| ==> |Utf8.Encode(s[..k])| != n
    decreases n
  {
    if n == 0 {
      assert |Utf8.Encode(s[..0])| == 0;
    } else if s != [] {
      var w := |Utf8.EncodeChar(s[0])|;
      if w > n {
        forall k | 1 <= k <= |s| ensures |Utf8.Encode(s[..k])| != n {
          PrefixEncodeLength(s, k);
        }
      } else {
        BytePrefixSpec(s[1..], n - w);
        BytePrefixStep(s, n);
      }
    }
  }

  /** The step of `BytePrefixSpec` past a first character that fits in `n` bytes. */
  lemma BytePrefixStep(s: string, n: nat)
    requires s != [] && 0 < n && |Utf8.EncodeChar(s[0])| <= n
    requires var r := BytePrefix(s[1..], n - |Utf8.EncodeChar(s[0])|);
      && (r.Some? ==> |r.value| <= |s[1..]| && r.value == s[1..][..|r.value|]
                      && |Utf8.Encode(r.value)| == n - |Utf8.EncodeChar(s[0])|)
      && (r.None? <==> forall k :: 0 <= k <= |s[1..]| ==> |Utf8.Encode(s[1..][..k])| != n - |Utf8.EncodeChar(s[0])|)
    ensures BytePrefix(s, n).Some? ==>
      var p := BytePrefix(s, n).value;
      |p| <= |s| && p == s[..|p|] && |Utf8.Encode(p)| == n
    ensures BytePrefix(s, n).None? <==> forall k :: 0 <= k <= |s| ==> |Utf8.Encode(s[..k])| != n
  {
    var w := |Utf8.EncodeChar(s[0])|;
    var r := BytePrefix(s[1..], n - w);
    if r.Some? {
      var p := r.value;
      Utf8.EncodeCons(s[0], p);
      assert [s[0]] + p == s[..|p| + 1];
    } else {
      forall k | 1 <= k <= |s| ensures |Utf8.Encode(s[..k])| != n {
        PrefixEncodeLength(s, k);
      }
    }
  }

  /**
   * The language Whisper is told to expect: a listed tag gives its code,
   * any other string of at least two bytes its first two bytes, and a
   * shorter one English. None is the panic of slicing a string inside a
   * character.
   */
  function WhisperLanguage(lang: string): Option<string>
  {
    match ListedCode(lang, LanguageTable)
    case Some(code) => Some(code)
    case None => if |Utf8.Encode(lang)| >= 2 then BytePrefix(lang, 2) else Some("en")
  }

  /** Each listed arm maps both its regional tag and its bare code to the code. */
  lemma ListedLanguages()
    ensures forall i :: 0 <= i < |LanguageTable| ==>
      && WhisperLanguage(LanguageTable[i].0) == Some(LanguageTable[i].1)
      && WhisperLanguage(LanguageTable[i].1) == Some(LanguageTable[i].1)
  {
    LanguageTableShape();
    forall i | 0 <= i < |LanguageTable|
      ensures WhisperLanguage(LanguageTable[i].0) == Some(LanguageTable[i].1)
      ensures WhisperLanguage(LanguageTable[i].1) == Some(LanguageTable[i].1)
    {
      ListedCodeAt(LanguageTable[i].0, LanguageTable, i);
      ListedCodeAt(LanguageTable[i].1, LanguageTable, i);
    }
  }

  /** Regional tags are five characters opening with their code; codes are two and all differ. */
  lemma LanguageTableShape()
    ensures forall i :: 0 <= i < |LanguageTable| ==>
      |LanguageTable[i].0| == 5 && |LanguageTable[i].1| == 2 && LanguageTable[i].0[..2] == LanguageTable[i].1
    ensures forall i, j :: 0 <= j < i < |LanguageTable| ==> LanguageTable[j].1 != LanguageTable[i].1
  {
  }

  /** The arm at `i` is the one taken when it matches and no earlier arm does. */
  lemma {:induction false} ListedCodeAt(lang: string, table: seq<(string, string)>, i: nat)
    requires i < |table| && (lang == table[i].0 || lang == table[i].1)
    requires forall j :: 0 <= j < i ==> lang != table[j].0 && lang != table[j].1
    ensures ListedCode(lang, table) == Some(table[i].1)
  {
    if i > 0 {
      ListedCodeAt(lang, table[1..], i - 1);
    }
  }

  /** True when `lang` is none of the listed tags. */
  predicate Unlisted(lang: string)
  {
    forall i :: 0 <= i < |LanguageTable| ==> lang != LanguageTable[i].0 && lang != LanguageTable[i].1
  }

  lemma {:induction false} ListedCodeNone(lang: string, table: seq<(string, string)>)
    requires forall i :: 0 <= i < |table| ==> lang != table[i].0 && lang != table[i].1
    ensures ListedCode(lang, table) == None
  {
    if table != [] {
      ListedCodeNone(lang, table[1..]);
    }
  }

  /**
   * An unlisted tag of under two bytes means English; a longer one gives
   * the characters that make up its first two bytes, and panics exactly when
   * no prefix of it is two bytes long.
   */
  lemma UnlistedLanguage(lang: string)
    requires Unlisted(lang)
    ensures |Utf8.Encode(lang)| < 2 ==> WhisperLanguage(lang) == Some("en")
    ensures |Utf8.Encode(lang)| >= 2 ==>
      (WhisperLanguage(lang).None? <==> forall k :: 0 <= k <= |lang| ==> |Utf8.Encode(lang[..k])| != 2)
    ensures |Utf8.Encode(lang)| >= 2 && WhisperLanguage(lang).Some? ==>
      var p := WhisperLanguage(lang).value;
      |p| <= |lang| && p == lang[..|p|] && Utf8.Encode(lang)[..2] == Utf8.Encode(p)
  {
    ListedCodeNone(lang, LanguageTable);
    BytePrefixSpec(lang, 2);
    var r := BytePrefix(lang, 2);
    if |Utf8.Encode(lang)| >= 2 && r.Some? {
      var p := r.value;
      assert lang == p + lang[|p|..];
      Utf8.EncodeAppend(p, lang[|p|..]);
    }
  }

  /** An unlisted ASCII tag of two characters or more is cut to its first two. */
  lemma UnlistedAsciiLanguage(lang: string)
    requires Unlisted(lang) && |lang| >= 2
    requires forall i :: 0 <= i < |lang| ==> lang[i] as int < 0x80
    ensures WhisperLanguage(lang) == Some(lang[..2])
  {
    UnlistedLanguage(lang);
    Utf8.EncodeAscii(lang);
    Utf8.EncodeAscii(lang[..2]);
    var p := WhisperLanguage(lang).value;
    Utf8.EncodeAscii(p);
  }

  /**
   * A tag that opens with a three-byte character, such as "\u65E5\u672C"
   * (Japanese written in kanji), makes the slice panic.
   */
  lemma KanjiLanguagePanics()
    ensures WhisperLanguage("\U{65E5}\U{672C}") == None
  {
    var lang := "\U{65E5}\U{672C}";
    assert Unlisted(lang);
    ListedCodeNone(lang, LanguageTable);
    assert |Utf8.EncodeChar(lang[0])| == 3;
  }

  /** `char::is_whitespace`: the Unicode White_Space property. */
  predicate IsWhitespace(c: char)
  {
    var cp := c as int;
    (0x09 <= cp <= 0x0D) || cp == 0x20 || cp == 0x85 || cp == 0xA0 || cp == 0x1680
    || (0x2000 <= cp <= 0x200A) || cp == 0x2028 || cp == 0x2029 || cp == 0x202F
    || cp == 0x205F || cp == 0x3000
  }

  /** `str::trim_start`. */
  function TrimStart(s: string): (r: string)
    ensures |r| <= |s| && r == s[|s| - |r|..]
    ensures forall k :: 0 <= k < |s| - |r| ==> IsWhitespace(s[k])
    ensures r == [] || !IsWhitespace(r[0])
  {
    if s != [] && IsWhitespace(s[0]) then
      var r := TrimStart(s[1..]);
      assert s[1..][|s| - 1 - |r|..] == s[|s| - |r|..];
      assert forall k :: 1 <= k < |s| - |r| ==> s[k] == s[1..][k - 1];
      r
    else s
  }

  /** `str::trim_end`. */
  function TrimEnd(s: string): (r: string)
    ensures |r| <= |s| && r == s[..|r|]
    ensures forall k :: |r| <= k < |s| ==> IsWhitespace(s[k])
    ensures r == [] || !IsWhitespace(r[|r| - 1])
  {
    if s != [] && IsWhitespace(s[|s| - 1]) then
      var r := TrimEnd(s[..|s| - 1]);
      assert s[..|s| - 1][..|r|] == s[..|r|];
      assert forall k :: |r| <= k < |s| - 1 ==> s[k] == s[..|s| - 1][k];
      r
    else s
  }

  /** `str::trim`: both ends. */
  function Trim(s: string): string
  {
    TrimEnd(TrimStart(s))
  }

  /** True when `s` neither opens nor closes with white space. */
  predicate Trimmed(s: string)
  {
    s == [] || (!IsWhitespace(s[0]) && !IsWhitespace(s[|s| - 1]))
  }

  /**
   * `trim` takes off exactly the white space at both ends: the result sits
   * inside `s` between two runs of white space and is itself trimmed.
   */
  lemma TrimSpec(s: string)
    ensures exists i, j ::
      && 0 <= i <= j <= |s| && Trim(s) == s[i..j]
      && (forall k :: 0 <= k < i ==> IsWhitespace(s[k]))
      && (forall k :: j <= k < |s| ==> IsWhitespace(s[k]))
    ensures Trimmed(Trim(s))
  {
    var t := TrimStart(s);
    var i := |s| - |t|;
    TrimEndInside(s, i, t);
    if Trim(s) != [] {
      assert Trim(s)[0] == t[0];
    }
  }

  /** Trimming the end of the suffix `t` of `s` that starts at `i` leaves a slice of `s` followed by white space. */
  lemma TrimEndInside(s: string, i: nat, t: string)
    requires i <= |s| && t == s[i..]
    requires forall k :: 0 <= k < i ==> IsWhitespace(s[k])
    ensures var j := i + |TrimEnd(t)|;
      && 0 <= i <= j <= |s| && TrimEnd(t) == s[i..j]
      && (forall k :: 0 <= k < i ==> IsWhitespace(s[k]))
      && (forall k :: j <= k < |s| ==> IsWhitespace(s[k]))
  {
    var j := i + |TrimEnd(t)|;
    forall k | j <= k < |s| ensures IsWhitespace(s[k]) {
      assert s[k] == t[k - i];
    }
  }

  /** A trimmed string is left as it is. */
  lemma TrimTrimmed(s: string)
    requires Trimmed(s)
    ensures Trim(s) == s
  {
  }

  /** True when `pat` occurs in `s` at index `i`. */
  predicate OccursAt(pat: string, s: string, i: int)
  {
    0 <= i && i + |pat| <= |s| && s[i..i + |pat|] == pat
  }

  /** True when `pat` occurs in `s`. */
  predicate Occurs(pat: string, s: string)
  {
    exists i :: 0 <= i <= |s| && OccursAt(pat, s, i)
  }

  /** `s.replace(pat, "")`: the non-overlapping occurrences of `pat`, leftmost first, removed. */
  function RemoveAll(s: string, pat: string): (r: string)
    requires pat != []
    ensures |r| <= |s|
    decreases |s|
  {
    if |s| < |pat| then s
    else if s[..|pat|] == pat then RemoveAll(s[|pat|..], pat)
    else [s[0]] + RemoveAll(s[1..], pat)
  }

  /** Removing a pattern that does not occur changes nothing. */
  lemma {:induction false} RemoveAllAbsent(s: string, pat: string)
    requires pat != [] && !Occurs(pat, s)
    ensures RemoveAll(s, pat) == s
    decreases |s|
  {
    if |s| >= |pat| {
      assert !OccursAt(pat, s, 0);
      assert s[0..|pat|] == s[..|pat|];
      assert !Occurs(pat, s[1..]) by {
        forall i | OccursAt(pat, s[1..], i) ensures false {
          assert s[i + 1..i + 1 + |pat|] == s[1..][i..i + |pat|];
          assert OccursAt(pat, s, i + 1);
        }
      }
      RemoveAllAbsent(s[1..], pat);
      assert s == [s[0]] + s[1..];
    }
  }

  /**
   * The hallucination tokens and the ellipsis that `run_inference_on_context`
   * removes, in the order it removes them.
   */
  function HallucinationTokens(): (r: seq<string>)
    ensures forall i :: 0 <= i < |r| ==> r[i] != []
  {
    ["[BLANK_AUDIO]", "(BLANK_AUDIO)", "[MUSIC]", "[NOISE]", "(music)", "(inaudible)", "..."]
  }

  /** The `replace` chain: each token removed in turn from what the previous left. */
  function RemoveEach(s: string, tokens: seq<string>): (r: string)
    requires forall i :: 0 <= i < |tokens| ==> tokens[i] != []
    ensures |r| <= |s|
    decreases |tokens|
  {
    if tokens == [] then s else RemoveEach(RemoveAll(s, tokens[0]), tokens[1..])
  }

  /** The clean-up of the joined segments: trim, remove the tokens, trim again. */
  function CleanTranscription(text: string): (r: string)
    ensures |r| <= |text|
  {
    Trim(RemoveEach(Trim(text), HallucinationTokens()))
  }

  /** The cleaned transcription never opens or closes with white space. */
  lemma CleanTranscriptionTrimmed(text: string)
    ensures Trimmed(CleanTranscription(text))
  {
    TrimSpec(RemoveEach(Trim(text), HallucinationTokens()));
  }

  /** Removing tokens none of which occurs changes nothing. */
  lemma {:induction false} RemoveEachAbsent(s: string, tokens: seq<string>)
    requires forall i :: 0 <= i < |tokens| ==> tokens[i] != [] && !Occurs(tokens[i], s)
    ensures RemoveEach(s, tokens) == s
    decreases |tokens|
  {
    if tokens != [] {
      RemoveAllAbsent(s, tokens[0]);
      RemoveEachAbsent(s, tokens[1..]);
    }
  }

  /** Text that is already trimmed and holds no token comes back unchanged. */
  lemma CleanTextKept(text: string)
    requires Trimmed(text)
    requires forall i :: 0 <= i < |HallucinationTokens()| ==> !Occurs(HallucinationTokens()[i], text)
    ensures CleanTranscription(text) == text
  {
    CleanKeptBy(text, HallucinationTokens());
  }

  /** Trimming, removing tokens none of which occurs, and trimming again leaves trimmed text as it is. */
  lemma CleanKeptBy(text: string, tokens: seq<string>)
    requires Trimmed(text)
    requires forall i :: 0 <= i < |tokens| ==> tokens[i] != [] && !Occurs(tokens[i], text)
    ensures Trim(RemoveEach(Trim(text), tokens)) == text
  {
    RemoveEachAbsent(text, tokens);
    TrimTrimmed(text);
    assert Trim(text) == text;
  }

  /** Nothing is removed from the empty string. */
  lemma {:induction false} RemoveEachEmpty(tokens: seq<string>)
    requires forall i :: 0 <= i < |tokens| ==> tokens[i] != []
    ensures RemoveEach("", tokens) == ""
    decreases |tokens|
  {
    if tokens != [] {
      RemoveEachEmpty(tokens[1..]);
    }
  }

  /** A transcription of nothing but a blank-audio marker cleans to "". */
  lemma BlankAudioCleaned()
    ensures CleanTranscription(" [BLANK_AUDIO] ") == ""
  {
    BlankAudioLineCleaned(" [BLANK_AUDIO] ");
  }

  lemma BlankAudioLineCleaned(text: string)
    requires text == " [BLANK_AUDIO] "
    ensures CleanTranscription(text) == ""
  {
    var t := "[BLANK_AUDIO]";
    assert Trim(text) == t by {
      assert text == [' '] + t + [' '];
      assert Trimmed(t);
      TrimSpaced(t);
    }
    TokenLineCleaned(text, t, HallucinationTokens());
  }

  /** A line that trims to the first token of the chain cleans to the empty string. */
  lemma TokenLineCleaned(line: string, t: string, tokens: seq<string>)
    requires Trim(line) == t && t != []
    requires tokens != [] && tokens[0] == t
    requires forall i :: 0 <= i < |tokens| ==> tokens[i] != []
    ensures Trim(RemoveEach(Trim(line), tokens)) == ""
  {
    RemoveEachLeading(t, tokens);
  }

  /** One space on each side of a trimmed, non-empty string is trimmed away. */
  lemma TrimSpaced(t: string)
    requires t != [] && Trimmed(t)
    ensures Trim([' '] + t + [' ']) == t
  {
    var s := [' '] + t + [' '];
    assert s[1..] == t + [' '];
    assert TrimStart(s) == t + [' '];
    assert (t + [' '])[..|t|] == t;
    assert TrimEnd(t + [' ']) == t;
  }

  /** A chain whose first token is the whole string leaves nothing. */
  lemma RemoveEachLeading(pat: string, tokens: seq<string>)
    requires tokens != [] && tokens[0] == pat
    requires forall i :: 0 <= i < |tokens| ==> tokens[i] != []
    ensures RemoveEach(pat, tokens) == ""
  {
    assert pat[..|pat|] == pat && pat[|pat|..] == "";
    assert RemoveAll(pat, pat) == "";
    RemoveEachEmpty(tokens[1..]);
  }
}
