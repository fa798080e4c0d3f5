/** The command in a frame: split in place, and read off as C strings. */
module ServerReader {
  import opened Bytes
  import opened Kv
  import opened Commands
  import opened Kvsp
  import opened KvspCode

  function CStrs(ts: seq<Str>): (r: Command)
    ensures |r| == |ts| && forall i :: 0 <= i < |ts| ==> r[i] == CStr(ts[i])
  {
    seq(|ts|, i requires 0 <= i < |ts| => CStr(ts[i]))
  }

  /** The command in a frame; none if its body is malformed or has no token. */
  function CommandOf(frame: Str): (r: Option<Command>) {
    if frame == [] || !Parse(frame).Frame? then None
    else
      var ts := SplitBody(frame[Parse(frame).head..]);
      if ts.None? || ts.value == [] then None else Some(CStrs(ts.value))
  }

  /** The C string at p. */
  method ReadCStr(buf: array<byte>, p: nat) returns (s: Str)
    requires p <= buf.Length
    ensures s == CStr(buf[p..])
  {
    s := [];
    var i := p;
    while i < buf.Length && buf[i] != 0
      invariant p <= i <= buf.Length && CStr(buf[p..]) == s + CStr(buf[i..])
    {
      assert buf[i..][1..] == buf[i + 1..];
      s := s + [buf[i]];
      i := i + 1;
    }
  }

  method ReadCStrs(buf: array<byte>, ptrs: seq<nat>, ghost ts: seq<Str>) returns (c: Command)
    requires |ptrs| == |ts| && forall i :: 0 <= i < |ts| ==> ptrs[i] < buf.Length && CStr(buf[ptrs[i]..]) == CStr(ts[i])
    ensures c == CStrs(ts)
  {
    c := [];
    for i := 0 to |ptrs|
      invariant |c| == i && forall j :: 0 <= j < i ==> c[j] == CStr(ts[j])
    {
      var s := ReadCStr(buf, ptrs[i]);
      c := c + [s];
    }
  }

  /** Split the frame at the front of the buffer in place, and read off its command. */
  method ReadCommand(buf: array<byte>, head: nat, total: nat) returns (c: Option<Command>)
    requires 0 < total <= buf.Length && Parse(buf[..total]) == Frame(head, total)
    modifies buf
    ensures forall i :: 0 <= i < buf.Length && !(head <= i < total) ==> buf[i] == old(buf[i])
    ensures c == CommandOf(old(buf[..total]))
  {
    ghost var frame := buf[..total];
    assert frame[head..] == buf[head..total];
    var count, ptrs := SplitTokens(buf, head, total);
    if count <= 0 {
      return None;
    }
    ghost var ts := SplitBody(frame[head..]).value;
    var cmd := ReadCStrs(buf, ptrs, ts);
    return Some(cmd);
  }
}
