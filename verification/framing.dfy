/**
 * Stream framing of the simulator node (`BitcoinNode::HandleRead` in
 * Transaction-Simulator/src/applications/model/bitcoin-node.cc): messages on a TCP stream are
 * separated by `'#'`; the bytes after the last separator are buffered per sender and completed
 * by the next packet.
 */
module Framing {
  import opened Common

  const Delimiter: char := '#'

  /** The packet as a C string: everything before its first NUL. */
  function CString(packet: string): (s: string)
    ensures s <= packet && '\0' !in s
    ensures |s| < |packet| ==> packet[|s|] == '\0'
  {
    if '\0' in packet then packet[..IndexOf(packet, '\0')] else packet
  }

  /** Frames, each followed by its delimiter. */
  function Join(frames: seq<string>): string {
    if |frames| == 0 then [] else frames[0] + [Delimiter] + Join(frames[1..])
  }

  /**
   * Reference split: the text before the first `'#'` is a frame, and the rest is split the
   * same way; what remains without any `'#'` is the remainder.
   */
  function Split(data: string): (r: (seq<string>, string))
    decreases |data|
  {
    if Delimiter !in data then ([], data)
    else
      var pos := IndexOf(data, Delimiter);
      var rest := Split(data[pos + 1..]);
      ([data[..pos]] + rest.0, rest.1)
  }

  /** A split of `data`: frames and remainder free of `'#'` that reassemble `data`. */
  predicate IsSplitOf(frames: seq<string>, remainder: string, data: string) {
    && Join(frames) + remainder == data
    && Delimiter !in remainder
    && (forall i :: 0 <= i < |frames| ==> Delimiter !in frames[i])
  }

  lemma {:induction false} SplitIsSplit(data: string)
    ensures IsSplitOf(Split(data).0, Split(data).1, data)
    decreases |data|
  {
    if Delimiter in data {
      var pos := IndexOf(data, Delimiter);
      var rest := Split(data[pos + 1..]);
      SplitIsSplit(data[pos + 1..]);
      var frames := [data[..pos]] + rest.0;
      assert frames[1..] == rest.0;
      assert data == data[..pos] + [Delimiter] + data[pos + 1..];
      assert Delimiter !in data[..pos];
    }
  }

  /** There is only one split: the reference split is the only decomposition. */
  lemma {:induction false} SplitUnique(frames: seq<string>, remainder: string, data: string)
    requires IsSplitOf(frames, remainder, data)
    ensures Split(data) == (frames, remainder)
    decreases |frames|
  {
    if |frames| == 0 {
      assert data == remainder;
    } else {
      var f := frames[0];
      var tail := Join(frames[1..]) + remainder;
      assert data == f + [Delimiter] + tail;
      assert data[|f|] == Delimiter;
      assert forall j :: 0 <= j < |f| ==> data[j] == f[j];
      assert IndexOf(data, Delimiter) == |f|;
      assert data[..|f|] == f;
      assert data[|f| + 1..] == tail;
      SplitUnique(frames[1..], remainder, tail);
      assert frames == [f] + frames[1..];
    }
  }

  /** The first frame of `data` is the text before its first delimiter. */
  lemma SplitFirst(data: string)
    requires Delimiter in data
    ensures var pos := IndexOf(data, Delimiter);
            Split(data) == ([data[..pos]] + Split(data[pos + 1..]).0, Split(data[pos + 1..]).1)
  {
  }

  lemma ConcatAssoc<T>(a: seq<T>, b: seq<T>, c: seq<T>)
    ensures a + (b + c) == (a + b) + c
  {
  }

  /**
   * The framing loop: completes the sender's buffered data with the packet (as a C string),
   * cuts off one frame per `'#'` and returns the frames in order and the new buffered data.
   */
  method ExtractFrames(buffered: string, packet: string) returns (frames: seq<string>, remainder: string)
    ensures IsSplitOf(frames, remainder, buffered + CString(packet))
    ensures (frames, remainder) == Split(buffered + CString(packet))
  {
    var total := buffered + CString(packet);
    frames := [];
    assert [] + Split(total).0 == Split(total).0;
    while Delimiter in total
      invariant Split(buffered + CString(packet)) == (frames + Split(total).0, Split(total).1)
      decreases |total|
    {
      var pos := IndexOf(total, Delimiter);
      SplitFirst(total);
      ConcatAssoc(frames, [total[..pos]], Split(total[pos + 1..]).0);
      frames := frames + [total[..pos]];
      total := total[pos + 1..];
    }
    remainder := total;
    assert Split(total) == ([], total);
    assert frames + [] == frames;
    SplitIsSplit(buffered + CString(packet));
  }
}
