// The streams of the library, over one flat array.  Their bodies are compiled elsewhere: here the
// readers follow the functions of the wire format.

module CodedStreams {
  import opened Words
  import opened Results
  import opened Wire

  class CodedOutputStream {
    var data: seq<Byte>

    constructor ()
      ensures data == []
    {
      data := [];
    }

    method Write(bytes: seq<Byte>)
      modifies this
      ensures data == old(data) + bytes
    {
      data := data + bytes;
    }
  }

  class CodedInputStream {
    const bytes: seq<Byte>
    var position: nat
    var limit: nat
    // The last tag was asked for right at the limit.
    var legitimateMessageEnd: bool

    predicate Valid()
      reads this
    {
      position <= limit <= |bytes|
    }

    // What is left up to the limit
    function Rest(): seq<Byte>
      requires Valid()
      reads this
    {
      bytes[position..limit]
    }

    constructor (s: seq<Byte>)
      ensures Valid() && Rest() == s && !legitimateMessageEnd && bytes == s
    {
      bytes, position, limit, legitimateMessageEnd := s, 0, |s|, false;
    }

    // Goes on at an end of what is left.
    method Advance(rest: seq<Byte>)
      requires Valid() && EndOf(rest, Rest())
      modifies `position
      ensures Valid() && Rest() == rest
    {
      position := limit - |rest|;
    }

    // Zero for the end of the input, and for a tag that cannot be read
    method ReadTag() returns (tag: nat)
      requires Valid() && !legitimateMessageEnd
      modifies `position, `legitimateMessageEnd
      ensures Valid() && legitimateMessageEnd == (old(Rest()) == [])
      ensures var r := Wire.ReadTag(old(Rest()));
              if r.None? then tag == 0 && Rest() == old(Rest()) else tag == r.value.0 && Rest() == r.value.1
    {
      if position == limit {
        legitimateMessageEnd := true;
        return 0;
      }
      match Wire.ReadTag(Rest())
      case None => tag := 0;
      case Some((n, rest)) =>
        VarintEnd(Rest());
        Advance(rest);
        tag := n;
    }

    method ReadVarint() returns (r: Option<nat>)
      requires Valid()
      modifies `position
      ensures Valid()
      ensures var v := Wire.ReadVarint(old(Rest()));
              if v.None? then r == None && Rest() == Unread(old(Rest())) else r == Some(v.value.0) && Rest() == v.value.1
    {
      match Wire.ReadVarint(Rest())
      case None =>
        Advance(Unread(Rest()));
        r := None;
      case Some((n, rest)) =>
        VarintEnd(Rest());
        Advance(rest);
        r := Some(n);
    }

    method ReadBytes() returns (r: Option<seq<Byte>>)
      requires Valid()
      modifies `position
      ensures Valid()
      ensures var v := ReadDelimited(old(Rest()));
              if v.None? then r == None else r == Some(v.value.0) && Rest() == v.value.1
    {
      match ReadDelimited(Rest())
      case None => r := None;
      case Some((payload, rest)) =>
        DelimitedEnd(Rest());
        EndOfEnd(rest, payload + rest, Rest());
        Advance(rest);
        r := Some(payload);
    }

    method SkipField(tag: nat) returns (ok: bool)
      requires Valid()
      modifies `position
      ensures Valid()
      ensures var v := Wire.SkipField(tag, old(Rest()));
              ok == v.Some? && (ok ==> Rest() == v.value)
    {
      match Wire.SkipField(tag, Rest())
      case None => ok := false;
      case Some(rest) =>
        SkipEnd(tag, Rest());
        Advance(rest);
        ok := true;
    }

    // Takes the tag if it comes next.
    method ExpectTag(tag: nat) returns (ok: bool)
      requires Valid()
      modifies `position
      ensures Valid() && ok == Wire.ExpectTag(tag, old(Rest()))
      ensures Rest() == if ok then old(Rest())[|Varint(tag)|..] else old(Rest())
    {
      ok := Wire.ExpectTag(tag, Rest());
      if ok { Advance(Rest()[|Varint(tag)|..]); }
    }

    // Lets the input end after that many bytes, or where it would have ended; the result is the limit
    // before.
    method PushLimit(n: nat) returns (previous: nat)
      requires Valid()
      modifies `limit
      ensures Valid() && previous == old(limit) && Rest() == Cut(old(Rest()), n).0
      ensures limit <= old(limit) <= |bytes| && bytes[limit..old(limit)] == Cut(old(Rest()), n).1
    {
      previous := limit;
      if position + n < limit { limit := position + n; }
      ghost var rest := bytes[position..previous];
      if n <= |rest| { assert rest[..n] == bytes[position..position + n] && rest[n..] == bytes[position + n..previous]; }
    }

    // Reads a length and places it as a limit.
    method ReadLengthAndPushLimit() returns (previous: nat)
      requires Valid()
      modifies `position, `limit
      ensures Valid() && previous == old(limit)
      ensures var (content, after) := ReadMessageContent(old(Rest()));
              Rest() == content && limit <= old(limit) <= |bytes| && bytes[limit..old(limit)] == after
    {
      var length := ReadVarint();
      if length == None {
        previous := PushLimit(0);
      } else if length.value % 0x1_0000_0000 <= INT_MAX {
        previous := PushLimit(length.value % 0x1_0000_0000);
      } else {
        previous := limit;
      }
    }

    method PopLimit(previous: nat)
      requires Valid() && limit <= previous <= |bytes|
      modifies `limit, `legitimateMessageEnd
      ensures Valid() && limit == previous && !legitimateMessageEnd
    {
      limit, legitimateMessageEnd := previous, false;
    }
  }
}
