/** Reading and writing frames over a connection. */
module Resp {
  import opened Streams
  import Decimal
  import opened RespSpec
  import opened RespEncode

  /** A position in the bytes read so far.  Where a method's result holds a value, its `next` is the position
      that the cursor has moved to. */
  class Cursor {
    const env: Env
    const bytes: seq<byte>
    var pos: nat

    constructor (env: Env, bytes: seq<byte>)
      ensures this.env == env && this.bytes == bytes && pos == 0
    {
      this.env, this.bytes, pos := env, bytes, 0;
    }

    ghost predicate At<T>(r: Result<T>)
      reads this
    {
      pos <= |bytes| && (r.Ok? ==> pos == r.next)
    }

    method PeekU8() returns (r: Result<byte>)
      requires pos <= |bytes|
      ensures r == if pos == |bytes| then Incomplete else Ok(bytes[pos], pos)
    {
      r := if pos == |bytes| then Incomplete else Ok(bytes[pos], pos);
    }

    method GetU8() returns (r: Result<byte>)
      requires pos <= |bytes|
      modifies this`pos
      ensures At(r) && r == if old(pos) == |bytes| then Incomplete else Ok(bytes[old(pos)], old(pos) + 1)
    {
      if pos == |bytes| {
        return Incomplete;
      }
      pos := pos + 1;
      r := Ok(bytes[pos - 1], pos);
    }

    method Skip(n: nat) returns (r: Result<()>)
      requires pos <= |bytes|
      modifies this`pos
      ensures At(r) && r == RespSpec.Skip(bytes, old(pos), n)
    {
      if |bytes| - pos < n {
        return Incomplete;
      }
      pos := pos + n;
      r := Ok((), pos);
    }

    /** Scans to the second to last byte for a CR LF. */
    method GetLine() returns (r: Result<seq<byte>>)
      requires 0 < pos <= |bytes|
      modifies this`pos
      ensures At(r) && r == RespSpec.GetLine(bytes, old(pos))
    {
      var start, end := pos, |bytes| - 1;
      var i := start;
      while i < end
        invariant start <= i && (i <= end || i == start)
        invariant forall j :: start <= j < i ==> !CrLfAt(bytes, j)
      {
        if bytes[i] == CR && bytes[i + 1] == LF {
          assert CrLfAt(bytes, i);
          pos := i + 2;
          return Ok(bytes[start..i], pos);
        }
        i := i + 1;
      }
      r := Incomplete;
    }

    method GetDecimal() returns (r: Result<u64>)
      requires 0 < pos <= |bytes|
      modifies this`pos
      ensures At(r) && r == RespSpec.GetDecimal(env, bytes, old(pos))
    {
      hide RespSpec.GetLine;
      var line := GetLine();
      if !line.Ok? {
        return Incomplete;
      }
      var n := env.atoi(line.value);
      r := if n.Some? then Ok(n.value, pos) else Malformed;
    }

    /** Checks whether a frame can be decoded. */
    method Check() returns (r: Result<()>)
      requires pos <= |bytes|
      modifies this`pos
      ensures At(r) && r == RespSpec.Check(env, bytes, old(pos))
      decreases |bytes| - pos, 0
    {
      hide RespSpec.GetLine, RespSpec.GetDecimal, RespSpec.CheckMany, RespSpec.CheckBulk;
      var kind := GetU8();
      if !kind.Ok? {
        return Incomplete;
      }
      if kind.value == PLUS || kind.value == MINUS {
        var line := GetLine();
        r := Behind(line);
      } else if kind.value == COLON {
        var n := GetDecimal();
        r := Behind(n);
      } else if kind.value == DOLLAR {
        r := CheckBulk();
      } else if kind.value == STAR {
        var len := GetDecimal();
        if !len.Ok? {
          return Behind(len);
        }
        r := CheckMany(len.value);
      } else {
        r := Malformed;
      }
    }

    method CheckBulk() returns (r: Result<()>)
      requires 0 < pos <= |bytes|
      modifies this`pos
      ensures At(r) && r == RespSpec.CheckBulk(env, bytes, old(pos))
    {
      hide RespSpec.GetDecimal;
      var peeked := PeekU8();
      if !peeked.Ok? {
        return Incomplete;
      }
      if peeked.value == MINUS {
        r := Skip(4);
      } else {
        var len := GetDecimal();
        if !len.Ok? {
          return Behind(len);
        }
        var n: nat := len.value;
        r := Skip(n + 2);
      }
    }

    method CheckMany(n: nat) returns (r: Result<()>)
      requires pos <= |bytes|
      modifies this`pos
      ensures At(r) && r == RespSpec.CheckMany(env, bytes, old(pos), n)
      decreases |bytes| - pos, 1
    {
      hide RespSpec.Check;
      for k := 0 to n
        invariant old(pos) <= pos <= |bytes|
        invariant RespSpec.CheckMany(env, bytes, old(pos), n) == RespSpec.CheckMany(env, bytes, pos, n - k)
      {
        r := Check();
        if !r.Ok? {
          return;
        }
      }
      r := Ok((), pos);
    }

    /** Parses a frame that has been checked. */
    method Parse() returns (r: Result<Frame>)
      requires pos <= |bytes| && RespSpec.Check(env, bytes, pos).Ok?
      modifies this`pos
      ensures At(r) && r == RespSpec.Parse(env, bytes, old(pos))
      decreases |bytes| - pos, 0
    {
      hide RespSpec.GetLine, RespSpec.GetDecimal, RespSpec.CheckMany, RespSpec.CheckBulk;
      hide RespSpec.ParseMany, RespSpec.ParseBulk;
      var kind := GetU8();
      if !kind.Ok? {
        return Incomplete;
      }
      if kind.value == PLUS || kind.value == MINUS {
        var line := GetLine();
        r := if !line.Ok? then Incomplete
        else if !env.utf8(line.value) then Malformed
        else if kind.value == PLUS then Ok(Simple(line.value), pos)
        else Ok(Error(line.value), pos);
      } else if kind.value == COLON {
        var n := GetDecimal();
        r := if n.Ok? then Ok(Integer(n.value), pos) else if n == Incomplete then Incomplete else Malformed;
      } else if kind.value == DOLLAR {
        r := ParseBulk();
      } else if kind.value == STAR {
        var len := GetDecimal();
        if !len.Ok? {
          return if len == Incomplete then Incomplete else Malformed;
        }
        var items := ParseMany(len.value);
        r := if items.Ok? then Ok(Array(items.value), pos) else if items == Incomplete then Incomplete else Malformed;
      } else {
        assert false;
      }
    }

    method ParseBulk() returns (r: Result<Frame>)
      requires 0 < pos <= |bytes|
      modifies this`pos
      ensures At(r) && r == RespSpec.ParseBulk(env, bytes, old(pos))
    {
      hide RespSpec.GetDecimal, RespSpec.GetLine;
      var peeked := PeekU8();
      if !peeked.Ok? {
        return Incomplete;
      }
      if peeked.value == MINUS {
        var line := GetLine();
        if !line.Ok? {
          return Incomplete;
        }
        r := if line.value == [MINUS, 49] then Ok(Null, pos) else Malformed;
      } else {
        var len := GetDecimal();
        if !len.Ok? {
          return if len == Incomplete then Incomplete else Malformed;
        }
        var n: nat := len.value;
        if |bytes| - pos < n + 2 {
          return Incomplete;
        }
        var data := bytes[pos..pos + n];
        var skipped := Skip(n + 2);
        r := Ok(Bulk(data), pos);
      }
    }

    method ParseMany(n: nat) returns (r: Result<seq<Frame>>)
      requires pos <= |bytes| && RespSpec.CheckMany(env, bytes, pos, n).Ok?
      modifies this`pos
      ensures At(r) && r == RespSpec.ParseMany(env, bytes, old(pos), n)
      decreases |bytes| - pos, 1
    {
      hide RespSpec.Check, RespSpec.Parse;
      var out: seq<Frame> := [];
      ghost var all := RespSpec.ParseMany(env, bytes, pos, n);
      assert all.Ok? ==> out + all.value == all.value;
      for k := 0 to n
        invariant old(pos) <= pos <= |bytes| && RespSpec.CheckMany(env, bytes, pos, n - k).Ok?
        invariant all == Prepend(out, RespSpec.ParseMany(env, bytes, pos, n - k))
      {
        ParsedIsChecked(env, bytes, pos);
        var item := Parse();
        if !item.Ok? {
          return if item == Incomplete then Incomplete else Malformed;
        }
        ghost var rest := RespSpec.ParseMany(env, bytes, pos, n - k - 1);
        assert rest.Ok? ==> out + ([item.value] + rest.value) == (out + [item.value]) + rest.value;
        out := out + [item.value];
      }
      assert out + [] == out;
      r := Ok(out, pos);
    }
  }

  class Connection {
    const env: Env
    const stream: Reader
    var buffer: seq<byte>
    var written: seq<byte>

    constructor (env: Env, stream: Reader)
      ensures this.env == env && this.stream == stream && buffer == [] && written == []
    {
      this.env, this.stream, buffer, written := env, stream, [], [];
    }

    /** All bytes of the peer that no frame has been made of yet. */
    ghost function Pending(): seq<byte>
      reads this, stream
    {
      buffer + stream.Rest()
    }

    /** None: not enough data yet. */
    method ParseFrame() returns (r: Option<FrameRead>)
      modifies this`buffer
      ensures r == None ==> RespSpec.Check(env, buffer, 0) == Incomplete && buffer == old(buffer)
      ensures r.Some? ==> RespSpec.Check(env, old(buffer), 0) != Incomplete && r.value != Closed
      ensures r.Some? && r.value.Got? ==>
        RespSpec.Check(env, old(buffer), 0).Ok? &&
        var f := RespSpec.Parse(env, old(buffer), 0);
        f.Ok? && f.value == r.value.frame && buffer == old(buffer)[f.next..] == r.value.rest
      ensures r == Some(Failed) ==>
        !RespSpec.Check(env, old(buffer), 0).Ok? || !RespSpec.Parse(env, old(buffer), 0).Ok?
    {
      hide RespSpec.Check, RespSpec.Parse;
      var buf := new Cursor(env, buffer);
      var checked := buf.Check();
      match checked {
        case Ok(_, _) =>
          var len := buf.pos;
          buf.pos := 0;
          ParsedIsChecked(env, buffer, 0);
          var frame := buf.Parse();
          if !frame.Ok? {
            return Some(Failed);
          }
          buffer := buffer[len..];
          return Some(Got(frame.value, buffer));
        case Incomplete =>
          return None;
        case Malformed =>
          return Some(Failed);
      }
    }

    /** The next frame of the stream, whatever pieces it arrives in. */
    method ReadFrame() returns (r: FrameRead)
      requires stream.Valid()
      modifies this`buffer, stream
      ensures stream.Valid()
      ensures match ReadOne(env, old(Pending()))
        case Got(frame, rest) => r.Got? && r.frame == frame && Pending() == rest
        case other => r == other
    {
      hide RespSpec.Check, RespSpec.Parse;
      while true
        invariant stream.Valid() && Pending() == old(Pending())
        decreases |stream.Rest()|
      {
        ghost var before := buffer;
        var parsed := ParseFrame();
        if parsed.Some? {
          ReadFromPrefix(env, before, stream.Rest());
          return parsed.value;
        }
        ghost var rest := stream.Rest();
        var piece := stream.Next();
        if piece == [] {
          assert old(Pending()) == buffer by {
            assert buffer + [] == buffer;
          }
          if buffer == [] {
            return Closed;
          }
          return Failed;
        }
        assert buffer + (piece + stream.Rest()) == (buffer + piece) + stream.Rest();
        buffer := buffer + piece;
      }
    }

    /** Every frame up to the end of the stream or the first error. */
    method ReadAll() returns (frames: seq<Frame>, clean: bool)
      requires stream.Valid()
      modifies this`buffer, stream
      ensures (frames, clean) == Frames(env, old(Pending()))
    {
      hide ReadOne;
      frames := [];
      assert frames + Frames(env, Pending()).0 == Frames(env, Pending()).0;
      while true
        invariant stream.Valid()
        invariant Frames(env, old(Pending())) == (frames + Frames(env, Pending()).0, Frames(env, Pending()).1)
        decreases |Pending()|
      {
        ghost var pending := Pending();
        var r := ReadFrame();
        match r {
          case Got(frame, _) =>
            var later := Frames(env, Pending()).0;
            assert frames + ([frame] + later) == (frames + [frame]) + later;
            frames := frames + [frame];
          case Closed =>
            assert frames + [] == frames;
            return frames, true;
          case Failed =>
            assert frames + [] == frames;
            return frames, false;
        }
      }
    }

    /** The digits go through a buffer of 20 bytes. */
    method WriteDecimal(val: u64)
      modifies this`written
      ensures written == old(written) + DecimalLine(val)
    {
      var buf := new byte[20];
      var digits := Decimal.Digits(val);
      U64HasTwentyDigits(val);
      for pos := 0 to |digits|
        invariant written == old(written) && forall k :: 0 <= k < pos ==> buf[k] == digits[k]
      {
        buf[pos] := digits[pos];
      }
      var text := buf[..|digits|];
      assert text == digits;
      written := written + text;
      written := written + [CR, LF];
      assert (old(written) + digits) + [CR, LF] == old(written) + (digits + [CR, LF]);
    }

    method WriteValue(frame: Frame)
      requires !frame.Array? && Sized(frame)
      modifies this`written
      ensures written == old(written) + EncodeValue(frame)
    {
      match frame {
        case Simple(val) =>
          written := written + [PLUS];
          written := written + val;
          written := written + [CR, LF];
        case Error(val) =>
          written := written + [MINUS];
          written := written + val;
          written := written + [CR, LF];
        case Integer(val) =>
          written := written + [COLON];
          WriteDecimal(val);
        case Null =>
          written := written + [DOLLAR, MINUS, 49, CR, LF];
        case Bulk(val) =>
          written := written + [DOLLAR];
          WriteDecimal(|val|);
          written := written + val;
          written := written + [CR, LF];
      }
    }

    method WriteFrame(frame: Frame)
      requires Encodable(frame) && Sized(frame)
      modifies this`written
      ensures written == old(written) + Encode(frame)
    {
      hide EncodeValue, EncodeMany, DecimalLine;
      if frame.Array? {
        var val := frame.items;
        written := written + [STAR];
        WriteDecimal(|val|);
        WriteEntries(val);
        assert ((old(written) + [STAR]) + DecimalLine(|val|)) + EncodeMany(val)
            == old(written) + ([STAR] + DecimalLine(|val|) + EncodeMany(val));
      } else {
        WriteValue(frame);
      }
    }

    method WriteEntries(val: seq<Frame>)
      requires forall i :: 0 <= i < |val| ==> !val[i].Array? && Sized(val[i])
      modifies this`written
      ensures written == old(written) + EncodeMany(val)
    {
      hide EncodeValue, EncodeMany, Sized;
      EncodeNone(val);
      assert old(written) + [] == old(written);
      for i := 0 to |val|
        invariant written == old(written) + EncodeMany(val[..i])
      {
        WriteValue(val[i]);
        EncodeNext(val, i);
        assert (old(written) + EncodeMany(val[..i])) + EncodeValue(val[i])
            == old(written) + (EncodeMany(val[..i]) + EncodeValue(val[i]));
      }
      assert val[..|val|] == val;
    }
  }
}
