/**
 The read loop that examples/chardev.c and examples/chardev2.c share: bytes are copied out of
 a zero-terminated message from the file offset on, and the offset returns to 0 at the end.
 */
module MessageRead {
  import opened CString

  /** What one read returns, and the offset after it; or a look at memory behind the buffer. */
  datatype Piece = Piece(data: string, offset: nat) | OutOfBuffer

  predicate Terminated(message: seq<char>) {
    |message| > 0 && message[|message|-1] == NUL
  }

  lemma TerminatedHasNul(message: seq<char>, offset: nat)
    requires Terminated(message) && offset < |message|
    ensures NUL in message[offset..] && NUL in message
  {
    assert message[offset..][|message| - 1 - offset] == NUL;
  }

  /** The string from the offset up to the next terminator. */
  function TextFrom(message: seq<char>, offset: nat): (s: string)
    requires Terminated(message) && offset < |message|
    ensures offset + |s| < |message| && message[offset + |s|] == NUL
    ensures s == message[offset..offset + |s|] && NUL !in s
  {
    TerminatedHasNul(message, offset);
    Text(message[offset..])
  }

  function Read(message: seq<char>, offset: nat, length: nat): (r: Piece)
    requires Terminated(message)
    ensures r.OutOfBuffer? <==> offset >= |message|
    ensures r.Piece? ==> r.offset < |message| && |r.data| <= length
  {
    if offset >= |message| then OutOfBuffer else
    var rest := TextFrom(message, offset);
    if rest == "" then Piece.Piece("", 0) else
    var data := if length < |rest| then rest[..length] else rest;
    Piece.Piece(data, offset + |data|)
  }

  /** `device_read`: it looks outside the buffer exactly when the offset it is given lies there. */
  method DeviceRead(message: array<char>, length: nat, offset: nat) returns (r: Piece)
    requires Terminated(message[..])
    ensures r == Read(message[..], offset, length)
  {
    if offset >= message.Length { return OutOfBuffer; }
    var data := "";
    if message[offset] == NUL {
      return Piece.Piece(data, 0);
    }
    ghost var rest := TextFrom(message[..], offset);
    assert forall k :: 0 <= k < |rest| ==> message[offset + k] == rest[k];
    assert message[offset + |rest|] == NUL;
    var messagePtr := offset;
    var left := length;
    while left > 0 && message[messagePtr] != NUL
      invariant messagePtr == offset + |data| && left == length - |data|
      invariant 0 <= |data| <= |rest| && data == rest[..|data|]
      decreases left
    {
      assert |data| < |rest|;
      data := data + [message[messagePtr]];
      messagePtr := messagePtr + 1;
      left := left - 1;
    }
    assert |data| < |rest| ==> message[messagePtr] == rest[|data|];
    r := Piece.Piece(data, offset + |data|);
  }

  // Reading page by page.

  /** The reader calls read until it gets nothing: what it has got, and where it stands. */
  datatype Progress = Progress(got: string, offset: nat, ended: bool)

  function ReadOn(message: seq<char>, lengths: seq<nat>): (p: Progress)
    requires Terminated(message)
    ensures p.offset < |message|
    decreases |lengths|
  {
    if lengths == [] then Progress("", 0, false) else
    var p := ReadOn(message, lengths[..|lengths|-1]);
    if p.ended then p else
    var r := Read(message, p.offset, lengths[|lengths|-1]);
    Progress(p.got + r.data, r.offset, r.data == "")
  }

  /** From an offset inside the text, the text that remains. */
  lemma RestOfText(message: seq<char>, offset: nat)
    requires Terminated(message) && offset <= |TextFrom(message, 0)|
    ensures TextFrom(message, offset) == TextFrom(message, 0)[offset..]
  {
    var text := TextFrom(message, 0);
    TerminatedHasNul(message, offset);
    NulAtIs(message[offset..], |text| - offset);
  }

  /** One read of the text: the next page of it, and nothing only at its end. */
  lemma NextPage(message: seq<char>, offset: nat, length: nat)
    requires Terminated(message) && offset <= |TextFrom(message, 0)| && length > 0
    ensures var r, text := Read(message, offset, length), TextFrom(message, 0);
            && r.Piece?
            && |r.data| == (if length <= |text| - offset then length else |text| - offset)
            && (r.data == "" <==> offset == |text|)
            && (r.data == "" ==> r.offset == 0)
            && (r.data != "" ==> r.offset == offset + |r.data| <= |text|
                                 && text[..r.offset] == text[..offset] + r.data)
  {
    RestOfText(message, offset);
  }

  /**
   Paged reading: whatever positive lengths are asked for, what has been returned is a prefix
   of the message as long as the offset; at the first empty return it is all of the message
   and the offset is 0 again; and that return comes after at most one read for each byte.
   */
  lemma {:induction false} PagesMakeTheMessage(message: seq<char>, lengths: seq<nat>)
    requires Terminated(message)
    requires forall i :: 0 <= i < |lengths| ==> lengths[i] > 0
    ensures var p, text := ReadOn(message, lengths), TextFrom(message, 0);
            && (p.ended ==> p.got == text && p.offset == 0)
            && (!p.ended ==> p.offset == |p.got| <= |text| && p.got == text[..p.offset]
                             && |p.got| >= |lengths|)
            && (|lengths| > |text| ==> p.ended)
    decreases |lengths|
  {
    if lengths != [] {
      var n := |lengths| - 1;
      PagesMakeTheMessage(message, lengths[..n]);
      var p := ReadOn(message, lengths[..n]);
      if !p.ended {
        NextPage(message, p.offset, lengths[n]);
      }
    }
  }

}
