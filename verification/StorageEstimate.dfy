/** Disk estimates and admission in exact rational arithmetic
    (pipeline/clipgauge_pipeline/storage_estimate.py and resource_guard.py). */
module StorageEstimate {
  import Sequences
  import opened Wrappers

  const MEBIBYTE: int := 1024 * 1024
  const MIN_SAFE_BYTES: int := 1024 * MEBIBYTE
  const AUDIO_BYTES_PER_SECOND: real := 32000.0
  const CHECKPOINT_BYTES: int := 256 * MEBIBYTE
  const MIN_RENDER_BYTES: int := 256 * MEBIBYTE
  const MIN_SAFETY_BYTES: int := 512 * MEBIBYTE
  const URL_FALLBACK_BYTES_PER_SECOND: real := 4194304.0
  const URL_FALLBACK_MIN_SOURCE_BYTES: int := 512 * MEBIBYTE

  function Max(a: int, b: int): int {
    if a >= b then a else b
  }

  function Ceil(x: real): (n: int)
    ensures x <= n as real < x + 1.0
  {
    -((0.0 - x).Floor)
  }

  lemma CeilGrows(x: real, y: real)
    requires x <= y
    ensures Ceil(x) <= Ceil(y)
  {
  }

  // ---------------------------------------------------------------- one source

  datatype Estimate = Estimate(source: int, copy: int, audio: int, render: int, safety: int, required: int)

  function Safety(working: int): int {
    Max(MIN_SAFETY_BYTES, Ceil(working as real / 5.0))
  }

  function Required(working: int): int {
    working + Safety(working)
  }

  function Audio(duration: Option<real>): int {
    if duration.Some? && duration.value >= 0.0 then Max(0, Ceil(duration.value * AUDIO_BYTES_PER_SECOND)) else 0
  }

  function Render(size: int): int {
    Max(MIN_RENDER_BYTES, Ceil(size as real / 2.0))
  }

  function Copied(bytes: int, copy: Option<int>): int {
    if copy.None? then Max(0, bytes) else Max(0, copy.value)
  }

  function Working(bytes: int, duration: Option<real>, copy: Option<int>): int {
    Copied(bytes, copy) + Audio(duration) + CHECKPOINT_BYTES + Render(Max(0, bytes))
  }

  /** The estimate for a source of `bytes`, of which `copy` are copied when that is known.
      The duration is None when it is unknown or not finite. */
  function ForSource(bytes: int, duration: Option<real>, copy: Option<int>): Estimate {
    var working := Working(bytes, duration, copy);
    Estimate(Max(0, bytes), Copied(bytes, copy), Audio(duration), Render(Max(0, bytes)), Safety(working),
             Required(working))
  }

  /** A duration is at most another; an unknown or negative one counts as none at all. */
  predicate NotLonger(a: Option<real>, b: Option<real>) {
    a.Some? && a.value >= 0.0 ==> b.Some? && a.value <= b.value
  }

  lemma RequiredGrows(a: int, b: int)
    requires a <= b
    ensures Required(a) <= Required(b)
  {
    CeilGrows(a as real / 5.0, b as real / 5.0);
  }

  lemma AudioGrows(a: Option<real>, b: Option<real>)
    requires NotLonger(a, b)
    ensures Audio(a) <= Audio(b)
  {
    if a.Some? && a.value >= 0.0 {
      CeilGrows(a.value * AUDIO_BYTES_PER_SECOND, b.value * AUDIO_BYTES_PER_SECOND);
    }
  }

  lemma RenderGrows(a: int, b: int)
    requires a <= b
    ensures Render(Max(0, a)) <= Render(Max(0, b))
  {
    CeilGrows(Max(0, a) as real / 2.0, Max(0, b) as real / 2.0);
  }

  /** Larger or longer sources never need less. */
  lemma EstimateGrows(a: int, b: int, short: Option<real>, long: Option<real>, copy: Option<int>, more: Option<int>)
    requires a <= b && NotLonger(short, long)
    requires copy.Some? == more.Some? && (copy.Some? ==> copy.value <= more.value)
    ensures ForSource(a, short, copy).required <= ForSource(b, long, more).required
    ensures ForSource(a, short, copy).render <= ForSource(b, long, more).render
  {
    AudioGrows(short, long);
    RenderGrows(a, b);
    RequiredGrows(Working(a, short, copy), Working(b, long, more));
  }

  /** `n` is the least whole number that is at least `low` and at least `x`. */
  predicate Least(n: int, low: int, x: real) {
    n >= low && n as real >= x && (n == low || (n - 1) as real < x)
  }

  /** A working size and its margin: the least that is a fifth of it and 512 MiB. */
  predicate WithMargin(required: int, working: int) {
    var margin := required - working;
    margin >= 536870912 && 5 * margin >= working && (margin == 536870912 || 5 * (margin - 1) < working)
  }

  lemma RequiredIsExact(working: int)
    ensures WithMargin(Required(working), working)
  {
  }

  /** The estimate is the copy (the source itself unless another size is given), the audio
      track of 32000 bytes a second, a checkpoint of 256 MiB and half the source but at least
      256 MiB for rendering, and on top of that its margin. Negative and unknown sizes and
      durations count as none. */
  lemma EstimateKeepsMargin(bytes: int, duration: Option<real>, copy: Option<int>)
    ensures var e := ForSource(bytes, duration, copy);
      var working := e.copy + e.audio + 268435456 + e.render;
      && WithMargin(e.required, working) && e.safety == e.required - working
      && e.source == (if bytes < 0 then 0 else bytes)
      && e.copy == (if copy.None? then e.source else if copy.value < 0 then 0 else copy.value)
      && (if duration.Some? && duration.value >= 0.0 then Least(e.audio, 0, duration.value * 32000.0) else e.audio == 0)
      && Least(e.render, 268435456, e.source as real / 2.0)
  {
    RequiredIsExact(Working(bytes, duration, copy));
    assert Least(Render(Max(0, bytes)), 268435456, Max(0, bytes) as real / 2.0);
    if duration.Some? && duration.value >= 0.0 {
      var audio := duration.value * AUDIO_BYTES_PER_SECOND;
      assert Ceil(audio) >= 0;
    }
  }

  // ---------------------------------------------------------------- later stages

  datatype Stage = Ingest | Asr | Rendering | Other

  /** What the remaining stage needs of a run that was estimated as a whole. */
  function StageRequired(stage: Stage, whole: Estimate): int {
    match stage
    case Asr => Required(CHECKPOINT_BYTES)
    case Rendering =>
      var render := Max(MIN_RENDER_BYTES, if whole.render > 0 then whole.render else MIN_RENDER_BYTES);
      Required(CHECKPOINT_BYTES + render)
    case _ => whole.required
  }

  /** No stage needs more than the whole run. */
  lemma StagesNeedNoMore(bytes: int, duration: Option<real>, copy: Option<int>, stage: Stage)
    ensures var whole := ForSource(bytes, duration, copy); StageRequired(stage, whole) <= whole.required
  {
    var whole := ForSource(bytes, duration, copy);
    var working := whole.copy + whole.audio + CHECKPOINT_BYTES + whole.render;
    RequiredGrows(CHECKPOINT_BYTES, working);
    RequiredGrows(CHECKPOINT_BYTES + whole.render, working);
  }

  /** What is still needed: for transcription a checkpoint and its margin, for rendering a
      checkpoint, the rendering and their margin, otherwise what was needed as a whole. */
  lemma StageIsExact(stage: Stage, whole: Estimate)
    ensures stage.Asr? ==> WithMargin(StageRequired(stage, whole), 268435456)
    ensures stage.Rendering? ==> WithMargin(StageRequired(stage, whole),
      268435456 + if whole.render < 268435456 then 268435456 else whole.render)
    ensures stage.Ingest? || stage.Other? ==> StageRequired(stage, whole) == whole.required
  {
    RequiredIsExact(268435456);
    RequiredIsExact(268435456 + Max(268435456, whole.render));
  }

  /** The decision of the resource guard. */
  function Blocked(available: int, whole: Estimate, stage: Option<Stage>): bool {
    available < Max(MIN_SAFE_BYTES, if stage.Some? then StageRequired(stage.value, whole) else whole.required)
  }

  /** Exactly those runs pass that leave one GiB and what the stage, or the whole run, needs. */
  lemma BlockedIsExact(available: int, whole: Estimate, stage: Option<Stage>)
    ensures Blocked(available, whole, stage) <==>
      || available < 1073741824
      || (stage.None? && available < whole.required)
      || (stage.Some? && available < StageRequired(stage.value, whole))
  {
  }

  /** A run admitted at some free space passes every later check at that space. */
  lemma AdmittedRunPasses(bytes: int, duration: Option<real>, copy: Option<int>, available: int, stage: Stage)
    requires !Blocked(available, ForSource(bytes, duration, copy), None)
    ensures !Blocked(available, ForSource(bytes, duration, copy), Some(stage))
  {
    StagesNeedNoMore(bytes, duration, copy, stage);
  }

  // ---------------------------------------------------------------- URL metadata

  /** A format record; numbers that are missing, malformed or not positive are None. */
  datatype Record = Record(formatId: Option<string>, url: Option<string>, size: Option<nat>, approximate: Option<nat>,
                           total: Option<nat>, video: Option<nat>, audio: Option<nat>)

  datatype Metadata = Metadata(own: Record, formats: seq<Record>, duration: Option<real>, seconds: Option<nat>)

  datatype Confidence = Exact | Approximate | Unknown | Bitrate | Fallback

  datatype Identity = ByFormat(id: string) | ByUrl(url: string)

  /** What identifies a record: its format id, or else its URL; a record may have neither. */
  function IdentityOf(r: Record): Option<Identity> {
    if r.formatId.Some? && r.formatId.value != "" then Some(ByFormat(r.formatId.value))
    else if r.url.Some? then Some(ByUrl(r.url.value))
    else None
  }

  /** The records that are new, given those already seen. */
  function Selected(records: seq<Record>, seen: set<Identity>): seq<Record> {
    if records == [] then []
    else
      var id := IdentityOf(records[0]);
      if id.None? then [records[0]] + Selected(records[1..], seen)
      else if id.value in seen then Selected(records[1..], seen)
      else [records[0]] + Selected(records[1..], seen + {id.value})
  }

  /** The records stand for one format: they share a format id that is not empty, or, when
      they have none, a URL. */
  predicate SameFormat(a: Record, b: Record) {
    if a.formatId.Some? && a.formatId.value != "" then b.formatId == a.formatId
    else (b.formatId.None? || b.formatId.value == "") && a.url.Some? && b.url == a.url
  }

  /** The selection keeps a record exactly when no earlier one stands for the same format. */
  lemma SelectedOneMore(records: seq<Record>, r: Record)
    ensures Selected([], {}) == []
    ensures Selected(records + [r], {}) == Selected(records, {}) +
      if exists i :: 0 <= i < |records| && SameFormat(records[i], r) then [] else [r]
  {
    SelectedAppend(records, r, {});
    forall i | 0 <= i < |records|
      ensures SameFormat(records[i], r) <==> IdentityOf(r).Some? && IdentityOf(records[i]) == IdentityOf(r)
    {
    }
  }

  lemma {:induction false} SelectedAppend(records: seq<Record>, r: Record, seen: set<Identity>)
    ensures Selected(records + [r], seen) == Selected(records, seen) +
      if IdentityOf(r).Some? && (IdentityOf(r).value in seen ||
         exists i :: 0 <= i < |records| && IdentityOf(records[i]) == IdentityOf(r)) then [] else [r]
    decreases |records|
  {
    if records == [] {
      assert [] + [r] == [r] && [r][1..] == [];
      assert Selected([], seen) == [];
    } else {
      var rest, id := records[1..], IdentityOf(records[0]);
      assert (records + [r])[1..] == rest + [r];
      var next := if id.Some? && id.value !in seen then seen + {id.value} else seen;
      SelectedAppend(rest, r, next);
      if i :| 0 < i < |records| && IdentityOf(records[i]) == IdentityOf(r) {
        assert rest[i - 1] == records[i];
      }
      var tail := if IdentityOf(r).Some? && (IdentityOf(r).value in next ||
        exists i :: 0 <= i < |rest| && IdentityOf(rest[i]) == IdentityOf(r)) then [] else [r];
      assert [records[0]] + (Selected(rest, next) + tail) == [records[0]] + Selected(rest, next) + tail;
    }
  }

  method SelectRecords(formats: seq<Record>) returns (records: seq<Record>)
    ensures records == Selected(formats, {})
  {
    var seen: set<Identity> := {};
    records := [];
    for i := 0 to |formats|
      invariant records + Selected(formats[i..], seen) == Selected(formats, {})
    {
      assert formats[i..][0] == formats[i] && formats[i..][1..] == formats[i + 1..];
      var identity := IdentityOf(formats[i]);
      if identity.Some? && identity.value in seen {
        continue;
      }
      ghost var next := if identity.Some? then seen + {identity.value} else seen;
      Sequences.Regroup(records, formats[i], Selected(formats[i + 1..], next));
      if identity.Some? {
        seen := seen + {identity.value};
      }
      records := records + [formats[i]];
    }
    assert records + [] == records;
  }

  function Chosen(r: Record): Option<nat> {
    if r.size.Some? then r.size else r.approximate
  }

  function SumChosen(records: seq<Record>): nat {
    if records == [] then 0
    else (if Chosen(records[0]).Some? then Chosen(records[0]).value else 0) + SumChosen(records[1..])
  }

  function ComponentSize(records: seq<Record>): (Option<nat>, Confidence) {
    if records == [] || (exists r :: r in records && Chosen(r).None?) then (None, Unknown)
    else (Some(SumChosen(records)), if exists r :: r in records && r.size.None? then Approximate else Exact)
  }

  function Rate(r: Record): nat {
    if r.total.Some? then r.total.value
    else (if r.video.Some? then r.video.value else 0) + (if r.audio.Some? then r.audio.value else 0)
  }

  function SumRates(records: seq<Record>): nat {
    if records == [] then 0 else Rate(records[0]) + SumRates(records[1..])
  }

  function BitrateBytes(own: Record, seconds: Option<nat>, records: seq<Record>): Option<int> {
    var rates := SumRates(if records == [] then [own] else records);
    if rates == 0 || seconds.None? then None
    else Some(Ceil((seconds.value * rates * 1000) as real / 8.0))
  }

  /** The selected records have a size exactly when there are some and each has one, exact or
      approximate; it is their sum, and exact when all are. */
  lemma ComponentsAreExact(records: seq<Record>, r: Record)
    ensures ComponentSize([]) == (None, Unknown)
    ensures ComponentSize([r]) ==
      if r.size.Some? then (r.size, Exact)
      else if r.approximate.Some? then (r.approximate, Approximate) else (None, Unknown)
    ensures records != [] ==>
      var (sum, how) := ComponentSize(records);
      var (one, known) := ComponentSize([r]);
      ComponentSize(records + [r]) ==
        if sum.None? || one.None? then (None, Unknown)
        else (Some(sum.value + one.value), if how == Exact && known == Exact then Exact else Approximate)
  {
    SumOneMore([], r);
    SumOneMore(records, r);
    assert [] + [r] == [r];
    assert forall x :: x in records + [r] <==> x in records || x == r;
    assert r in records + [r];
  }

  lemma {:induction false} SumOneMore(records: seq<Record>, r: Record)
    ensures SumChosen(records + [r]) == SumChosen(records) + if Chosen(r).Some? then Chosen(r).value else 0
    ensures SumRates(records + [r]) == SumRates(records) + Rate(r)
    decreases |records|
  {
    if records == [] {
      assert [] + [r] == [r] && [r][1..] == [];
    } else {
      assert (records + [r])[1..] == records[1..] + [r];
      SumOneMore(records[1..], r);
    }
  }

  /** The bitrate of records: of each its own, or else what its video and audio have. */
  lemma RatesAreExact(records: seq<Record>, r: Record)
    ensures SumRates([]) == 0
    ensures r.total.Some? ==> SumRates(records + [r]) == SumRates(records) + r.total.value
    ensures r.total.None? ==>
      var both := (if r.video.Some? then r.video.value else 0) + (if r.audio.Some? then r.audio.value else 0);
      SumRates(records + [r]) == SumRates(records) + both
  {
    SumOneMore(records, r);
  }

  /** The bitrate estimate is the least whole number of bytes that kilobits of that rate fill
      in the given time; without records the metadata itself stands for them. */
  lemma BitrateIsExact(own: Record, seconds: Option<nat>, records: seq<Record>)
    ensures var bytes, rates := BitrateBytes(own, seconds, records), SumRates(if |records| > 0 then records else [own]);
      && (bytes.Some? <==> rates > 0 && seconds.Some?)
      && (bytes.Some? ==> Least(bytes.value, 0, (seconds.value * rates * 1000) as real / 8.0))
  {
    var rates := SumRates(if |records| > 0 then records else [own]);
    if rates > 0 && seconds.Some? {
      assert (seconds.value * rates * 1000) as real / 8.0 >= 0.0;
    }
  }

  method SelectedComponentSize(records: seq<Record>) returns (size: Option<nat>, confidence: Confidence)
    ensures (size, confidence) == ComponentSize(records)
  {
    if records == [] {
      return None, Unknown;
    }
    var sum, approximate := 0, false;
    for i := 0 to |records|
      invariant sum + SumChosen(records[i..]) == SumChosen(records)
      invariant forall j :: 0 <= j < i ==> Chosen(records[j]).Some?
      invariant approximate <==> exists j :: 0 <= j < i && records[j].size.None?
    {
      assert records[i..][0] == records[i] && records[i..][1..] == records[i + 1..];
      var value := Chosen(records[i]);
      if value.None? {
        assert records[i] in records;
        return None, Unknown;
      }
      sum := sum + value.value;
      approximate := approximate || records[i].size.None?;
    }
    return Some(sum), if approximate then Approximate else Exact;
  }

  method SelectedBitrateBytes(own: Record, seconds: Option<nat>, records: seq<Record>) returns (bytes: Option<int>)
    ensures bytes == BitrateBytes(own, seconds, records)
  {
    var candidates := if records == [] then [own] else records;
    var rates := 0;
    for i := 0 to |candidates|
      invariant rates + SumRates(candidates[i..]) == SumRates(candidates)
    {
      assert candidates[i..][0] == candidates[i] && candidates[i..][1..] == candidates[i + 1..];
      var rate := Rate(candidates[i]);
      if rate > 0 {
        rates := rates + rate;
      }
    }
    if rates == 0 || seconds.None? {
      return None;
    }
    return Some(Ceil((seconds.value * rates * 1000) as real / 8.0));
  }

  function MetadataSize(own: Record, seconds: Option<nat>, records: seq<Record>): (Option<int>, Confidence) {
    var (size, confidence) := ComponentSize(records);
    var bitrate := BitrateBytes(own, seconds, records);
    if own.size.Some? then (Some(own.size.value), Exact)
    else if size.Some? && confidence == Exact then (Some(size.value), Exact)
    else if own.approximate.Some? then (Some(own.approximate.value), Approximate)
    else if size.Some? then (Some(size.value), confidence)
    else if bitrate.Some? then (bitrate, Bitrate)
    else (None, Fallback)
  }

  /** The size of a URL source: its own exact size, the exact sizes of the selected formats,
      its own approximate size, their approximate sizes, the bitrate estimate, in this order. */
  lemma MetadataSizeIsExact(own: Record, seconds: Option<nat>, records: seq<Record>)
    ensures var (size, confidence) := MetadataSize(own, seconds, records);
      var (sum, how) := ComponentSize(records);
      var exact, guessed := sum.Some? && how == Exact, BitrateBytes(own, seconds, records);
      && (own.size.Some? ==> size == Some(own.size.value) && confidence == Exact)
      && (own.size.None? && exact ==> size == Some(sum.value) && confidence == Exact)
      && (own.size.None? && !exact && own.approximate.Some? ==>
          size == Some(own.approximate.value) && confidence == Approximate)
      && (own.size.None? && !exact && own.approximate.None? && sum.Some? ==>
          size == Some(sum.value) && confidence == Approximate)
      && (own.size.None? && own.approximate.None? && sum.None? ==>
          size == guessed && confidence == if guessed.Some? then Bitrate else Fallback)
  {
  }

  /** A source of known or guessed size; an unknown size counts as a high-bitrate source. */
  function SizedSource(size: Option<int>, duration: Option<real>): Estimate {
    var known := if duration.Some? && duration.value >= 0.0 then duration else None;
    var seconds := if known.Some? then known.value else 0.0;
    ForSource(if size.Some? then size.value
              else Max(URL_FALLBACK_MIN_SOURCE_BYTES, Ceil(seconds * URL_FALLBACK_BYTES_PER_SECOND)), known, None)
  }

  /** The estimate for a URL. */
  function ForUrl(m: Metadata): (Estimate, Confidence) {
    var (size, confidence) := MetadataSize(m.own, m.seconds, Selected(m.formats, {}));
    (SizedSource(size, m.duration), confidence)
  }

  /** A URL is estimated as a source of its size; without one as a source of 4 MiB a second,
      but at least 512 MiB. */
  lemma UrlIsExact(m: Metadata)
    ensures var (size, confidence) := MetadataSize(m.own, m.seconds, Selected(m.formats, {}));
      var (e, how) := ForUrl(m);
      var seconds := if m.duration.Some? && m.duration.value >= 0.0 then m.duration.value else 0.0;
      && how == confidence
      && e == ForSource(e.source, if m.duration.Some? && m.duration.value < 0.0 then None else m.duration, None)
      && (size.Some? ==> e.source == if size.value < 0 then 0 else size.value)
      && (size.None? ==> Least(e.source, 536870912, seconds * 4194304.0))
  {
    assert URL_FALLBACK_BYTES_PER_SECOND == 4194304.0;
  }

  lemma {:induction false} RepeatIsSkipped(before: seq<Record>, repeat: Record, after: seq<Record>, seen: set<Identity>)
    requires IdentityOf(repeat).Some?
    requires
      || IdentityOf(repeat).value in seen
      || exists i :: 0 <= i < |before| && IdentityOf(before[i]) == IdentityOf(repeat)
    ensures Selected(before + [repeat] + after, seen) == Selected(before + after, seen)
    decreases |before|
  {
    if before == [] {
      assert [] + [repeat] + after == [repeat] + after && [] + after == after;
    } else {
      var rest := before[1..];
      assert (before + [repeat] + after)[1..] == rest + [repeat] + after && (before + after)[1..] == rest + after;
      var id := IdentityOf(before[0]);
      var next := if id.Some? && id.value !in seen then seen + {id.value} else seen;
      if IdentityOf(repeat).value !in next {
        var i :| 0 <= i < |before| && IdentityOf(before[i]) == IdentityOf(repeat);
        assert rest[i - 1] == before[i];
      }
      RepeatIsSkipped(rest, repeat, after, next);
    }
  }

  /** Repeating an identified format record anywhere later never changes the estimate, even
      when the repetition carries other sizes. */
  lemma RepeatedFormatIsIgnored(m: Metadata, before: seq<Record>, repeat: Record, after: seq<Record>)
    requires m.formats == before + after && IdentityOf(repeat).Some?
    requires exists i :: 0 <= i < |before| && IdentityOf(before[i]) == IdentityOf(repeat)
    ensures ForUrl(m.(formats := before + [repeat] + after)) == ForUrl(m)
  {
    RepeatIsSkipped(before, repeat, after, {});
  }

  /** A record without identity is counted every time it appears. */
  lemma UnidentifiedFormatIsCounted(size: nat)
    requires size > 0
    ensures var r := Record(None, None, Some(size), None, None, None, None);
      && ComponentSize(Selected([r], {})) == (Some(size), Exact)
      && ComponentSize(Selected([r, r], {})) == (Some(2 * size), Exact)
  {
    var r := Record(None, None, Some(size), None, None, None, None);
    assert [r, r][1..] == [r] && [r][1..] == [];
    assert Selected([r], {}) == [r];
    assert Selected([r, r], {}) == [r, r];
    assert SumChosen([r]) == size;
    assert SumChosen([r, r]) == size + SumChosen([r]);
  }

  /** A URL run that is admitted passes its later checks too. */
  lemma AdmittedUrlRunPasses(m: Metadata, available: int, stage: Stage)
    requires !Blocked(available, ForUrl(m).0, None)
    ensures !Blocked(available, ForUrl(m).0, Some(stage))
  {
    var known := if m.duration.Some? && m.duration.value >= 0.0 then m.duration else None;
    AdmittedRunPasses(ForUrl(m).0.source, known, None, available, stage);
  }
}
