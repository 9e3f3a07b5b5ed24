/**
 The chunker: cuts a reply into consecutive windows of at most
 `SafeSplitLength` characters, left to right and regardless of word
 boundaries, and appends the continuation notice to every window but the last.
 */
module Chunker {
  import opened Constants

  function Min(a: int, b: int): int {
    if a <= b then a else b
  }

  /** The messages the chunking loop produces, one window at a time. */
  function Chunks(text: string): (r: seq<string>)
    decreases |text|
  {
    if |text| == 0 then []
    else if |text| <= SafeSplitLength then [text]
    else [text[..SafeSplitLength] + CleanupMessage] + Chunks(text[SafeSplitLength..])
  }

  /** Concatenation of a sequence of strings. */
  function Flatten(ss: seq<string>): string {
    if |ss| == 0 then "" else ss[0] + Flatten(ss[1..])
  }

  /** The windows themselves, before any notice is appended. */
  function Bodies(text: string): seq<string>
    decreases |text|
  {
    if |text| == 0 then []
    else if |text| <= SafeSplitLength then [text]
    else [text[..SafeSplitLength]] + Bodies(text[SafeSplitLength..])
  }

  /** The windows put back together are exactly the text. */
  lemma {:induction false} BodiesRebuildText(text: string)
    ensures Flatten(Bodies(text)) == text
    decreases |text|
  {
    if |text| > SafeSplitLength {
      var tail := text[SafeSplitLength..];
      BodiesRebuildText(tail);
      assert Bodies(text) == [text[..SafeSplitLength]] + Bodies(tail);
      assert Flatten(Bodies(text)) == text[..SafeSplitLength] + Flatten(Bodies(tail));
      assert text == text[..SafeSplitLength] + tail;
    } else if |text| > 0 {
      assert Flatten([text]) == text + Flatten([]);
    }
  }

  /** Every window is non-empty and at most `SafeSplitLength` long. */
  lemma {:induction false} BodiesSizes(text: string)
    ensures forall b :: b in Bodies(text) ==> 0 < |b| <= SafeSplitLength
    decreases |text|
  {
    if |text| > SafeSplitLength {
      BodiesSizes(text[SafeSplitLength..]);
    }
  }

  /** Message `i` is window `i`, followed by the continuation notice unless it is the last. */
  lemma {:induction false} ChunkAt(text: string, i: nat)
    requires i < |Bodies(text)|
    ensures |Chunks(text)| == |Bodies(text)|
    ensures Chunks(text)[i] == Bodies(text)[i] + (if i < |Bodies(text)| - 1 then CleanupMessage else "")
    decreases |text|
  {
    if |text| > SafeSplitLength {
      var tail := text[SafeSplitLength..];
      if i > 0 {
        ChunkAt(tail, i - 1);
      } else {
        ChunkCountMatches(tail);
      }
    }
  }

  lemma {:induction false} ChunkCountMatches(text: string)
    ensures |Chunks(text)| == |Bodies(text)|
    decreases |text|
  {
    if |text| > SafeSplitLength {
      ChunkCountMatches(text[SafeSplitLength..]);
    }
  }

  /** The continuation notice follows exactly the non-final windows. */
  lemma ChunksMarkBodies(text: string)
    ensures |Chunks(text)| == |Bodies(text)|
    ensures forall i :: 0 <= i < |Chunks(text)| - 1 ==> Chunks(text)[i] == Bodies(text)[i] + CleanupMessage
    ensures |Chunks(text)| > 0 ==> Chunks(text)[|Chunks(text)| - 1] == Bodies(text)[|Bodies(text)| - 1]
  {
    ChunkCountMatches(text);
    forall i | 0 <= i < |Chunks(text)| ensures Chunks(text)[i] == Bodies(text)[i] + (if i < |Bodies(text)| - 1 then CleanupMessage else "") {
      ChunkAt(text, i);
    }
  }

  /** Window `i` is the slice of `text` from `i*S` to `min((i+1)*S, |text|)`. */
  lemma {:induction false} BodyAt(text: string, i: nat)
    requires i < |Bodies(text)|
    ensures i * SafeSplitLength < |text|
    ensures Bodies(text)[i] == text[i * SafeSplitLength .. Min((i + 1) * SafeSplitLength, |text|)]
    decreases |text|
  {
    if i > 0 {
      var tail := text[SafeSplitLength..];
      assert |text| > SafeSplitLength;

      assert Bodies(text)[i] == Bodies(tail)[i - 1];
      BodyAt(tail, i - 1);
      var lo := (i - 1) * SafeSplitLength;
      var hi := Min(i * SafeSplitLength, |tail|);
      assert lo + SafeSplitLength == i * SafeSplitLength;
      assert hi + SafeSplitLength == Min((i + 1) * SafeSplitLength, |text|);
      SliceOfSuffix(text, SafeSplitLength, lo, hi);
    }
  }

  lemma SliceOfSuffix(s: string, d: nat, lo: nat, hi: nat)
    requires d <= |s| && lo <= hi <= |s| - d
    ensures s[d..][lo..hi] == s[d + lo .. d + hi]
  {
  }

  /** Consecutive windows with no gaps and no overlaps. */
  lemma BodiesAreWindows(text: string)
    ensures forall i :: 0 <= i < |Bodies(text)| ==>
      i * SafeSplitLength < |text| &&
      Bodies(text)[i] == text[i * SafeSplitLength .. Min((i + 1) * SafeSplitLength, |text|)]
  {
    forall i | 0 <= i < |Bodies(text)|
      ensures i * SafeSplitLength < |text|
      ensures Bodies(text)[i] == text[i * SafeSplitLength .. Min((i + 1) * SafeSplitLength, |text|)]
    {
      BodyAt(text, i);
    }
  }

  /** The number of messages is ceil(|text| / SafeSplitLength). */
  lemma {:induction false} ChunkCount(text: string)
    ensures |Chunks(text)| == (|text| + SafeSplitLength - 1) / SafeSplitLength
    decreases |text|
  {
    if |text| > SafeSplitLength {
      ChunkCount(text[SafeSplitLength..]);
    }
  }

  /** Empty text gives no messages; text that fits one window gives exactly that text. */
  lemma ShortText(text: string)
    requires |text| <= SafeSplitLength
    ensures text == [] ==> Chunks(text) == []
    ensures text != [] ==> Chunks(text) == [text]
  {
    if text != [] {
      assert 0 < |text| <= SafeSplitLength;
    }
  }

  /** Every message, notice included, fits Telegram's hard limit. */
  lemma {:induction false} ChunksFitTelegram(text: string)
    ensures forall c :: c in Chunks(text) ==> |c| <= MaxTelegramLength
    decreases |text|
  {
    assert |CleanupMessage| == 40;
    if |text| > SafeSplitLength {
      ChunksFitTelegram(text[SafeSplitLength..]);
    }
  }

  /** A 10000-character reply becomes two full windows with notices and a final 2400-character window. */
  lemma TenThousandCharacters(text: string)
    requires |text| == 10000
    ensures |Chunks(text)| == 3
    ensures Chunks(text)[0] == text[..3800] + CleanupMessage
    ensures Chunks(text)[1] == text[3800..7600] + CleanupMessage
    ensures Chunks(text)[2] == text[7600..]
    ensures |Chunks(text)[0]| == |Chunks(text)[1]| == 3800 + |CleanupMessage| && |Chunks(text)[2]| == 2400
  {
    var second, third := text[3800..], text[7600..];
    assert second[..SafeSplitLength] == text[3800..7600];
    assert second[SafeSplitLength..] == third;
    assert Chunks(third) == [third];
    assert Chunks(second) == [text[3800..7600] + CleanupMessage, third];
  }

  /** The chunking loop of the reply sender. */
  method Split(text: string) returns (messages: seq<string>)
    ensures messages == Chunks(text)
  {
    messages := [];
    var pos := 0;
    while pos < |text|
      invariant 0 <= pos <= |text|
      invariant messages + Chunks(text[pos..]) == Chunks(text)
    {
      var end := Min(pos + SafeSplitLength, |text|);
      var chunk := text[pos..end];
      if end < |text| {
        chunk := chunk + CleanupMessage;
        assert text[pos..][..SafeSplitLength] == text[pos..end];
        assert text[pos..][SafeSplitLength..] == text[end..];
      } else {
        assert chunk == text[pos..];
        assert text[end..] == [];
      }
      assert Chunks(text[pos..]) == [chunk] + Chunks(text[end..]);
      messages := messages + [chunk];
      pos := end;
    }
    assert text[pos..] == [];
  }
}
