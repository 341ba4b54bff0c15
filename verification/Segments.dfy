/** A segment's documents in the formats of the postings file, and what processing a segment passes to
    `add_rsv`. */
module Segments {
  import opened Bits
  import opened Gaps
  import opened Memory
  import opened Simd
  import EliasBytes
  import VByte
  import Simple8b
  import Qmx
  import QmxChoice
  import QmxD4
  import QmxKeys
  import QmxWidths

  /** The file modes s, c, 8, q, R, Q, G and D. */
  datatype Mode =
    | NotCompressed | VariableByte | Simple8bWords | QmxGaps | QmxDocids | QmxDeltas | EliasGamma | EliasDelta

  datatype Option<T> = None | Some(value: T)

  /** The first byte of the file. */
  function ByteOf(mode: Mode): nat {
    match mode
    case NotCompressed => 's' as nat
    case VariableByte => 'c' as nat
    case Simple8bWords => '8' as nat
    case QmxGaps => 'q' as nat
    case QmxDocids => 'R' as nat
    case QmxDeltas => 'Q' as nat
    case EliasGamma => 'G' as nat
    case EliasDelta => 'D' as nat
  }

  /** Whether segments may be decoded and processed in one pass; an uncompressed index is processed in one
      pass whatever was asked for. */
  predicate CanInterleave(mode: Mode) {
    mode in {NotCompressed, VariableByte, Simple8bWords}
  }

  /** How the search engine chooses what decodes the postings; it stops if the byte is not that of a mode, or
      if that mode cannot do what was asked for. */
  method ChooseMode(first: nat, interleaved: bool) returns (mode: Option<Mode>)
    ensures forall m :: mode == Some(m) <==> first == ByteOf(m) && (interleaved ==> CanInterleave(m))
  {
    if first == 's' as nat {
      mode := Some(NotCompressed);
    } else if first == 'c' as nat {
      mode := Some(VariableByte);
    } else if first == '8' as nat {
      mode := Some(Simple8bWords);
    } else if first == 'q' as nat {
      mode := if interleaved then None else Some(QmxGaps);
    } else if first == 'G' as nat {
      mode := if interleaved then None else Some(EliasGamma);
    } else if first == 'D' as nat {
      mode := if interleaved then None else Some(EliasDelta);
    } else if first == 'Q' as nat {
      mode := if interleaved then None else Some(QmxDeltas);
    } else if first == 'R' as nat {
      mode := if interleaved then None else Some(QmxDocids);
    } else {
      mode := None;
    }
  }

  /** The bytes of the modes in ASCII, each of them of one mode only. */
  lemma ModeBytes(mode: Mode, other: Mode)
    ensures ByteOf(NotCompressed) == 115 && ByteOf(VariableByte) == 99 && ByteOf(Simple8bWords) == 56
    ensures ByteOf(QmxGaps) == 113 && ByteOf(QmxDocids) == 82 && ByteOf(QmxDeltas) == 81
    ensures ByteOf(EliasGamma) == 71 && ByteOf(EliasDelta) == 68
    ensures ByteOf(mode) == ByteOf(other) ==> mode == other
  {
  }

  // ----- what is stored

  ghost predicate HoldsQmx(bytes: seq<nat>, source: seq<nat>, blocks: seq<nat>, parts: seq<seq<nat>>, keys: seq<nat>) {
    && Qmx.IsEncoding(Qmx.FORMAT, source, blocks, parts, Flatten(parts), keys)
    && bytes == Flatten(parts) + Reversed(keys)
    && QmxChoice.Chosen(Qmx.Needs(source), true, Qmx.FORMAT.capacities, blocks) && QmxKeys.PackedKeys(keys)
  }

  ghost predicate HoldsD4(bytes: seq<nat>, raw: seq<nat>, source: seq<nat>, blocks: seq<nat>, parts: seq<seq<nat>>,
                          keys: seq<nat>, val: nat) {
    && QmxD4.IsEncoding(Qmx.FORMAT, raw, source, blocks, parts, keys) && QmxD4.IsLayout(bytes, parts, keys, val)
    && QmxChoice.Chosen(Qmx.Needs(source[..|raw|]), false, Qmx.FORMAT.capacities, blocks) && QmxKeys.PackedKeys(keys)
  }

  ghost predicate AreDocids(docids: seq<nat>) {
    docids != [] && Words32(docids) && |docids| + 16 <= Pow2(32)
  }

  lemma ZeroIsWord()
    ensures 0 < Pow2(32)
  {
  }

  function GapsFromZero(docids: seq<nat>): seq<nat>
    requires Words32(docids)
  {
    ZeroIsWord();
    GapsOf(0, docids)
  }

  /** The bytes of a segment of these documents. */
  ghost predicate IsSegment(mode: Mode, bytes: seq<nat>, docids: seq<nat>) {
    AreDocids(docids) &&
    match mode
    case NotCompressed => bytes == Store(docids, 4)
    case VariableByte => bytes == VByte.Codes(GapsFromZero(docids))
    case Simple8bWords => Words32(GapsFromZero(docids))
      && bytes == Store(Simple8b.Compressed(GapsFromZero(docids), 0), 8)
    case QmxGaps => exists blocks, parts, keys :: HoldsQmx(bytes, GapsFromZero(docids), blocks, parts, keys)
    case QmxDocids => exists blocks, parts, keys :: HoldsQmx(bytes, docids, blocks, parts, keys)
    case QmxDeltas => exists source, blocks, parts, keys, val ::
      HoldsD4(bytes, docids, source, blocks, parts, keys, val)
    case EliasGamma => EliasBytes.IsGamma(bytes, GapsFromZero(docids))
    case EliasDelta => EliasBytes.IsDelta(bytes, GapsFromZero(docids))
  }

  /** The one case in which a format does not give back the documents: Simple-8b stores a run of gaps of
      one bit as ones, although the first gap, that of document 0, is 0. */
  ghost predicate IsFaithful(mode: Mode, docids: seq<nat>)
    requires Words32(docids)
  {
    mode.Simple8bWords? ==> Words32(GapsFromZero(docids)) && Simple8b.OnlyOnesInRuns(GapsFromZero(docids), 0)
  }

  ghost predicate Ascending(docids: seq<nat>) {
    forall i :: 1 <= i < |docids| ==> docids[i - 1] < docids[i]
  }

  /** The gaps of ascending documents: all but the first are positive, and do not wrap. */
  ghost predicate Steps(docids: seq<nat>, gaps: seq<nat>) {
    && |docids| == |gaps| && (docids != [] ==> gaps[0] == docids[0])
    && forall i :: 1 <= i < |gaps| ==> gaps[i] > 0 && docids[i] == docids[i - 1] + gaps[i]
  }

  lemma GapsOfAscending(docids: seq<nat>, gaps: seq<nat>)
    requires Words32(docids) && Ascending(docids) && gaps == GapsFromZero(docids)
    ensures Steps(docids, gaps)
  {
    TwoTo32();
    if docids != [] {
      GapAt(0, docids, 0);
    }
    forall i: nat | 1 <= i < |docids| ensures gaps[i] > 0 && docids[i] == docids[i - 1] + gaps[i] {
      GapAt(0, docids, i);
    }
  }

  ghost predicate FromZero(docids: seq<nat>, n: nat) {
    n <= |docids| && forall i :: 0 <= i < n ==> docids[i] == i
  }

  /** Ascending documents are not given back exactly if the first 120 are 0 to 119. */
  lemma FaithfulToAscending(docids: seq<nat>)
    requires AreDocids(docids) && Ascending(docids)
    ensures IsFaithful(Simple8bWords, docids) <==> !FromZero(docids, 120)
  {
    var gaps := GapsFromZero(docids);
    GapsOfAscending(docids, gaps);
    Simple8b.LeadingZero(gaps);
    RunFromZero(docids, gaps, 120);
  }

  lemma {:induction false} RunFromZero(docids: seq<nat>, gaps: seq<nat>, n: nat)
    requires Steps(docids, gaps) && 1 <= n
    ensures FromZero(docids, n) <==> |gaps| >= n && gaps[0] == 0 && Simple8b.OnesOnly(gaps, 1, n)
  {
    if n > 1 {
      RunFromZero(docids, gaps, n - 1);
      if |gaps| >= n {
        assert docids[n - 1] == docids[n - 2] + gaps[n - 1];
      }
    }
  }

  // ----- compressing

  method TakeGapsOf(docids: seq<nat>) returns (gaps: seq<nat>)
    requires Words32(docids)
    ensures gaps == GapsFromZero(docids) && Words32(gaps) && |gaps| == |docids|
  {
    var buffer := new nat[|docids|](i requires 0 <= i < |docids| => docids[i]);
    assert buffer[..] == docids;
    TakeGaps(buffer);
    gaps := buffer[..];
  }

  /** Whether the segment fits in the buffer. The QMX codecs do not look at its size. */
  ghost predicate Fits(mode: Mode, docids: seq<nat>, capacity: nat)
    requires AreDocids(docids)
  {
    match mode
    case NotCompressed => 4 * |docids| <= capacity
    case VariableByte => |VByte.Codes(GapsFromZero(docids))| <= capacity
    case Simple8bWords => Words32(GapsFromZero(docids))
      && |Simple8b.Compressed(GapsFromZero(docids), 0)| <= capacity / 8
    case EliasGamma => EliasBytes.GammaFits(GapsFromZero(docids), capacity)
    case EliasDelta => EliasBytes.DeltaFits(GapsFromZero(docids), capacity)
    case _ => true
  }

  /** No documents, no bytes: an empty segment is how a codec says that it failed. */
  lemma SomeBytes(mode: Mode, bytes: seq<nat>, docids: seq<nat>)
    requires IsSegment(mode, bytes, docids)
    ensures bytes != []
  {
    match mode
    case NotCompressed =>
      StoreLength(docids, 4);
    case VariableByte =>
    case Simple8bWords =>
      StoreLength(Simple8b.Compressed(GapsFromZero(docids), 0), 8);
    case QmxGaps =>
      var blocks, parts, keys :| HoldsQmx(bytes, GapsFromZero(docids), blocks, parts, keys);
    case QmxDocids =>
      var blocks, parts, keys :| HoldsQmx(bytes, docids, blocks, parts, keys);
    case QmxDeltas =>
      var source, blocks, parts, keys, val :| HoldsD4(bytes, docids, source, blocks, parts, keys, val);
    case EliasGamma =>
      EliasBytes.GammaHasBytes(bytes, GapsFromZero(docids));
    case EliasDelta =>
      EliasBytes.DeltaHasBytes(bytes, GapsFromZero(docids));
  }

  /** The segment's bytes; nothing if they do not fit, and then the indexer stops. `stale` is what the
      buffer happens to hold. */
  method Compress(mode: Mode, docids: seq<nat>, capacity: nat, stale: seq<nat>) returns (bytes: seq<nat>)
    requires AreDocids(docids) && |stale| == 16 && Words32(stale)
    ensures if Fits(mode, docids, capacity) then IsSegment(mode, bytes, docids) else bytes == []
  {
    match mode
    case NotCompressed =>
      bytes := if 4 * |docids| > capacity then [] else Store(docids, 4);
    case VariableByte =>
      var gaps := TakeGapsOf(docids);
      bytes := VByte.Compress(gaps, capacity);
    case Simple8bWords =>
      bytes := CompressWords(docids, capacity);
    case QmxGaps =>
      bytes := CompressQmx(docids);
    case QmxDocids =>
      ghost var blocks, parts, keys;
      bytes, blocks, parts, keys := Qmx.Encode(docids);
      assert HoldsQmx(bytes, docids, blocks, parts, keys);
    case QmxDeltas =>
      bytes := CompressD4(docids);
    case EliasGamma =>
      var gaps := TakeGapsOf(docids);
      bytes := EliasBytes.EncodeGamma(gaps, capacity);
    case EliasDelta =>
      var gaps := TakeGapsOf(docids);
      bytes := EliasBytes.EncodeDelta(gaps, capacity, stale);
  }

  method CompressWords(docids: seq<nat>, capacity: nat) returns (bytes: seq<nat>)
    requires AreDocids(docids)
    ensures if Fits(Simple8bWords, docids, capacity) then IsSegment(Simple8bWords, bytes, docids) else bytes == []
  {
    var gaps := TakeGapsOf(docids);
    var words := Simple8b.Compress(gaps, capacity / 8);
    bytes := Store(words, 8);
  }

  method CompressQmx(docids: seq<nat>) returns (bytes: seq<nat>)
    requires AreDocids(docids)
    ensures IsSegment(QmxGaps, bytes, docids)
  {
    var gaps := TakeGapsOf(docids);
    ghost var blocks, parts, keys;
    bytes, blocks, parts, keys := Qmx.Encode(gaps);
    assert HoldsQmx(bytes, gaps, blocks, parts, keys);
  }

  method CompressD4(docids: seq<nat>) returns (bytes: seq<nat>)
    requires AreDocids(docids)
    ensures IsSegment(QmxDeltas, bytes, docids)
  {
    var buffer := new nat[|docids| + QmxWidths.WASTAGE](i => 0);
    ZeroIsWord();
    ghost var source, blocks, parts, keys, val;
    bytes, source, blocks, parts, keys, val := QmxD4.Encode(docids, buffer);
    assert HoldsD4(bytes, docids, source, blocks, parts, keys, val);
  }

  // ----- processing

  /** Simple-8b: the same calls fused and staged; the documents exactly if no zero is in a run of ones. */
  method ProcessSimple8b(bytes: seq<nat>, integers: nat, interleaved: bool, ghost docids: seq<nat>)
    returns (calls: seq<nat>)
    requires IsSegment(Simple8bWords, bytes, docids) && integers == |docids|
    ensures calls == docids <==> IsFaithful(Simple8bWords, docids)
  {
    ghost var gaps := GapsFromZero(docids);
    ghost var compressed := Simple8b.Compressed(gaps, 0);
    Simple8b.WordsAre64(gaps, 0);
    LoadAll(compressed, 8, bytes);
    var words := Load(bytes, 8, |bytes| / 8);
    if interleaved {
      calls := Simple8b.ProcessFused(words);
    } else {
      calls := Simple8b.ProcessStaged(words, integers, gaps);
    }
    Simple8bIsFaithful(docids);
  }

  lemma Simple8bIsFaithful(docids: seq<nat>)
    requires AreDocids(docids) && Words32(GapsFromZero(docids))
    ensures RunningSums(0, Simple8b.Decoded(Simple8b.Compressed(GapsFromZero(docids), 0))) == docids <==>
            IsFaithful(Simple8bWords, docids)
  {
    var gaps := GapsFromZero(docids);
    var decoded := Simple8b.Decoded(Simple8b.Compressed(gaps, 0));
    ZeroIsWord();
    SumsOfGaps(0, docids);
    Simple8b.RoundTrip(gaps, 0);
    assert gaps[0..] == gaps;
    Simple8b.DecodedAreWords(gaps, 0);
    if RunningSums(0, decoded) == docids {
      SumsDiffer(0, decoded, gaps);
    }
  }

  /** QMX over gaps or over the documents themselves. */
  method DecodeQmx(bytes: seq<nat>, ghost source: seq<nat>) returns (to: seq<nat>)
    requires exists blocks, parts, keys :: HoldsQmx(bytes, source, blocks, parts, keys)
    ensures to == source
  {
    ghost var blocks, parts, keys :| HoldsQmx(bytes, source, blocks, parts, keys);
    to := Qmx.Decode(bytes, source, blocks, parts, Flatten(parts), keys);
  }

  method DecodeD4(memory: seq<nat>, length: nat, integers: nat, ghost docids: seq<nat>, ghost bytes: seq<nat>)
    returns (to: seq<nat>)
    requires length + 32 <= |memory| && bytes == memory[..length] && integers == |docids|
    requires IsSegment(QmxDeltas, bytes, docids)
    ensures integers <= |to| && to[..integers] == docids
  {
    ghost var source, blocks, parts, keys, val :| HoldsD4(bytes, docids, source, blocks, parts, keys, val);
    to := QmxD4.Decode(memory, length, integers, docids, source, blocks, parts, keys, val);
  }

  lemma TailOf(memory: seq<nat>, offset: nat, end: nat)
    requires offset <= end <= |memory|
    ensures memory[offset..][..end - offset] == memory[offset..end]
  {
  }

  method ProcessD4(memory: seq<nat>, offset: nat, end: nat, integers: nat, ghost docids: seq<nat>)
    returns (calls: seq<nat>)
    requires offset <= end && end + 32 <= |memory| && IsSegment(QmxDeltas, memory[offset..end], docids)
             && integers == |docids|
    ensures calls == docids
  {
    TailOf(memory, offset, end);
    var to := DecodeD4(memory[offset..], end - offset, integers, docids, memory[offset..end]);
    calls := to[..integers];
  }

  method ProcessQmx(bytes: seq<nat>, integers: nat, ghost docids: seq<nat>) returns (calls: seq<nat>)
    requires IsSegment(QmxGaps, bytes, docids) && integers == |docids|
    ensures calls == docids
  {
    ghost var gaps := GapsFromZero(docids);
    var to := DecodeQmx(bytes, gaps);
    ZeroIsWord();
    SumsOfGaps(0, docids);
    assert gaps[..integers] == gaps;
    calls := SumAndAdd(to, integers);
  }

  /** The documents that processing the segment at [offset, end) passes to `add_rsv`, in order. */
  method Process(mode: Mode, memory: seq<nat>, offset: nat, end: nat, integers: nat, interleaved: bool,
                 ghost docids: seq<nat>)
    returns (calls: seq<nat>)
    requires offset <= end && end + 32 <= |memory| && IsSegment(mode, memory[offset..end], docids)
             && integers == |docids|
    ensures calls == docids <==> IsFaithful(mode, docids)
  {
    var bytes := memory[offset..end];
    ghost var gaps := GapsFromZero(docids);
    ZeroIsWord();
    SumsOfGaps(0, docids);
    match mode
    case NotCompressed =>
      LoadAll(docids, 4, bytes);
      calls := Load(bytes, 4, |bytes| / 4);
    case VariableByte =>
      if interleaved {
        calls := VByte.ProcessFused(bytes, gaps);
      } else {
        calls := VByte.ProcessStaged(bytes, gaps);
      }
    case Simple8bWords =>
      calls := ProcessSimple8b(bytes, integers, interleaved, docids);
    case QmxGaps =>
      calls := ProcessQmx(bytes, integers, docids);
    case QmxDocids =>
      calls := DecodeQmx(bytes, docids);
    case QmxDeltas =>
      calls := ProcessD4(memory, offset, end, integers, docids);
    case EliasGamma =>
      var decoded := EliasBytes.DecodeGamma(bytes, integers, gaps);
      calls := SumAndAdd(decoded, integers);
    case EliasDelta =>
      var decoded := EliasBytes.DecodeDelta(bytes, integers, gaps);
      calls := SumAndAdd(decoded, integers);
  }
}
