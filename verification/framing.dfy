/** The wire format of the chat protocol (msg/request.go with the constants
    of constant/const.go): a frame is a two-byte big-endian length, then the
    group byte, the command byte and the JSON body; the length counts the
    group and command bytes and the body. The pair (group, command) selects
    the message type through a uint16 key. JSON itself is not modelled: the
    body bytes are what `Write` receives from the encoder and what `Read`
    hands to the decoder. */
module Framing {

  type Byte = x: int | 0 <= x < 256

  /** Length of the length header. */
  const NetHeaderLen: nat := 2
  /** Multiplier of the group in a type key. */
  const GrpBase: nat := 1000
  const U16Modulus: nat := 65536

  const MsgGrpLogin: Byte := 1
  const MsgGrpChat: Byte := 2
  const MsgCmdLogin: Byte := 1
  const MsgCmdChat: Byte := 1
  const MsgCmdJoin: Byte := 2
  const MsgCmdNotify: Byte := 3
  const MsgCmdHistory: Byte := 4

  /** The Go struct a frame body is decoded into. */
  datatype MsgKind =
    | ReqLogin | ReqChat | ReqJoin
    | RspLogin | RspChat | RspJoin | RspNotify | RspHistory

  /** `Message` without its decoded data. */
  datatype Message = Message(grp: Byte, cmd: Byte)

  /** The type key before the uint16 wrap. */
  function RawKey(grp: Byte, cmd: Byte): nat {
    grp as int * GrpBase + cmd as int
  }

  /** `uint16(grp)*GrpBase + uint16(cmd)` in wrapping uint16 arithmetic. */
  function TypeKey(grp: Byte, cmd: Byte): (k: nat)
    ensures k < U16Modulus
    ensures RawKey(grp, cmd) < U16Modulus ==> k == RawKey(grp, cmd)
  {
    RawKey(grp, cmd) % U16Modulus
  }

  /** A big-endian uint16 from two bytes. */
  function Be16(hi: Byte, lo: Byte): (n: nat)
    ensures n < U16Modulus
  {
    hi as int * 256 + lo as int
  }

  /** Request types, by key. The history request is registered with the
      join request's struct. */
  const ReqMsgMap: map<nat, MsgKind> := map[
    TypeKey(MsgGrpLogin, MsgCmdLogin) := ReqLogin,
    TypeKey(MsgGrpChat, MsgCmdChat) := ReqChat,
    TypeKey(MsgGrpChat, MsgCmdJoin) := ReqJoin,
    TypeKey(MsgGrpChat, MsgCmdHistory) := ReqJoin]

  /** Response types, by key. */
  const RspMsgMap: map<nat, MsgKind> := map[
    TypeKey(MsgGrpLogin, MsgCmdLogin) := RspLogin,
    TypeKey(MsgGrpChat, MsgCmdChat) := RspChat,
    TypeKey(MsgGrpChat, MsgCmdJoin) := RspJoin,
    TypeKey(MsgGrpChat, MsgCmdHistory) := RspHistory,
    TypeKey(MsgGrpChat, MsgCmdNotify) := RspNotify]

  lemma MsgMapKeys()
    ensures ReqMsgMap.Keys == {1001, 2001, 2002, 2004}
    ensures ReqMsgMap[2004] == ReqJoin && ReqMsgMap[2002] == ReqJoin
    ensures RspMsgMap.Keys == {1001, 2001, 2002, 2003, 2004}
    ensures RspMsgMap[2004] == RspHistory && RspMsgMap[2003] == RspNotify
  {
  }

  /** The key wraps: group 132, command 73 selects the login type. */
  lemma TypeKeyCollides()
    ensures TypeKey(132, 73) == TypeKey(MsgGrpLogin, MsgCmdLogin) == 1001
    ensures TypeKey(132, 73) in ReqMsgMap && ReqMsgMap[TypeKey(132, 73)] == ReqLogin
  {
  }

  /** Without wrap-around the key determines group and command. */
  lemma TypeKeyInjectiveBelowWrap(g1: Byte, c1: Byte, g2: Byte, c2: Byte)
    requires g1 <= 65 && g2 <= 65
    requires TypeKey(g1, c1) == TypeKey(g2, c2)
    ensures g1 == g2 && c1 == c2
  {
    assert RawKey(g1, c1) == RawKey(g2, c2);
    RawKeySplits(g1, c1);
    RawKeySplits(g2, c2);
  }

  /** Group and command are the quotient and remainder of the raw key. */
  lemma RawKeySplits(g: Byte, c: Byte)
    ensures RawKey(g, c) / GrpBase == g as int && RawKey(g, c) % GrpBase == c as int
  {
  }

  /** The length field of a frame: body length plus two, as a uint16. */
  function LengthField(payloadLen: nat): (n: nat)
    ensures n < U16Modulus
    ensures payloadLen + 2 < U16Modulus ==> n == payloadLen + 2
  {
    (payloadLen + NetHeaderLen) % U16Modulus
  }

  /** `Write`: the frame for group `grp`, command `cmd` and JSON body `body`. */
  function Write(grp: Byte, cmd: Byte, body: seq<Byte>): (frame: seq<Byte>)
    ensures |frame| == |body| + 4
    ensures Be16(frame[0], frame[1]) == LengthField(|body|)
    ensures frame[2] == grp && frame[3] == cmd && frame[4..] == body
  {
    var n := LengthField(|body|);
    var hi: Byte := n / 256;
    var lo: Byte := n % 256;
    [hi, lo, grp, cmd] + body
  }

  datatype ReadOutcome =
    | HeaderShort                 // fewer than two bytes: `ReadFull` fails and `Read` returns its error
    | IndexPanic                  // the declared length is below 2: `msg[0]` or `msg[1]` panics
    | NilTypePanic(key: nat)      // no type for the key: `reflect.TypeOf(nil).Elem()` panics
    | Framed(msg: Message, kind: MsgKind, body: seq<Byte>, rest: seq<Byte>)

  /** `n` zero bytes. */
  function Zeros(n: nat): (z: seq<Byte>)
    ensures |z| == n && forall i | 0 <= i < n :: z[i] == 0
  {
    seq(n, _ => 0 as Byte)
  }

  /** The byte at index `i` of the frame's buffer when the stream holds it,
      and zero where `ReadFull` left the buffer untouched. */
  function ByteAt(stream: seq<Byte>, i: nat): (v: Byte)
    ensures i < |stream| ==> v == stream[i]
    ensures i >= |stream| ==> v == 0
  {
    if i < |stream| then stream[i] else 0
  }

  /** `Read` from a connection whose remaining bytes are `stream`, as a
      server (`svr`: request types) or a client (response types). The
      frame's buffer is read with `ReadFull`, whose error is overwritten:
      a stream that ends early leaves the rest of the buffer zero. `rest`
      is what the connection still holds afterwards. */
  function Read(stream: seq<Byte>, svr: bool): (r: ReadOutcome)
    ensures r.HeaderShort? <==> |stream| < NetHeaderLen
    ensures |stream| >= 2 ==> (r.IndexPanic? <==> Be16(stream[0], stream[1]) < 2)
    ensures |stream| >= 2 && Be16(stream[0], stream[1]) >= 2 ==>
              (r.Framed? <==> TypeKey(ByteAt(stream, 2), ByteAt(stream, 3)) in (if svr then ReqMsgMap else RspMsgMap))
    ensures r.NilTypePanic? ==>
              && r.key == TypeKey(ByteAt(stream, 2), ByteAt(stream, 3))
              && r.key !in (if svr then ReqMsgMap else RspMsgMap)
    ensures r.Framed? ==>
              && var n := Be16(stream[0], stream[1]);
              && |r.body| == n - 2
              && (|stream| >= n + 2 ==> [r.msg.grp, r.msg.cmd] + r.body == stream[2..n + 2] && r.rest == stream[n + 2..])
              && (|stream| < n + 2 ==> [r.msg.grp, r.msg.cmd] + r.body == stream[2..] + Zeros(n + 2 - |stream|) && r.rest == [])
              && TypeKey(r.msg.grp, r.msg.cmd) in (if svr then ReqMsgMap else RspMsgMap)
              && r.kind == (if svr then ReqMsgMap else RspMsgMap)[TypeKey(r.msg.grp, r.msg.cmd)]
  {
    if |stream| < NetHeaderLen then HeaderShort
    else
      var n := Be16(stream[0], stream[1]);
      var avail := if |stream| - 2 < n then |stream| - 2 else n;
      var buf := stream[2..2 + avail] + Zeros(n - avail);
      var rest := stream[2 + avail..];
      if n < 2 then IndexPanic
      else
        var m := Message(buf[0], buf[1]);
        var key := TypeKey(m.grp, m.cmd);
        var types := if svr then ReqMsgMap else RspMsgMap;
        if key !in types then NilTypePanic(key)
        else
          assert avail == n ==> buf == stream[2..n + 2];
          assert avail < n ==> buf == stream[2..] + Zeros(n + 2 - |stream|);
          assert buf == [buf[0], buf[1]] + buf[2..];
          Framed(m, types[key], buf[2..], rest)
  }

  /** Reading back a written frame gives its group, command and body, and
      leaves whatever followed it, as long as the body fits the length
      field and the key names a type. */
  lemma ReadWriteRoundTrip(grp: Byte, cmd: Byte, body: seq<Byte>, more: seq<Byte>, svr: bool)
    requires |body| + 2 < U16Modulus
    requires TypeKey(grp, cmd) in (if svr then ReqMsgMap else RspMsgMap)
    ensures Read(Write(grp, cmd, body) + more, svr) ==
            Framed(Message(grp, cmd), (if svr then ReqMsgMap else RspMsgMap)[TypeKey(grp, cmd)], body, more)
  {
    var s := Write(grp, cmd, body) + more;
    var n := |body| + 2;
    assert Be16(s[0], s[1]) == n;
    assert s[2..2 + n] == [grp, cmd] + body;
    assert s[2 + n..] == more;
  }

  /** A body of 65534 bytes or more gets a length field that does not
      describe it, so the reader cannot find the frame's end. */
  lemma LongBodyBreaksFraming(grp: Byte, cmd: Byte, body: seq<Byte>)
    requires |body| + 2 >= U16Modulus
    ensures var f := Write(grp, cmd, body); Be16(f[0], f[1]) != |body| + 2
  {
  }

  /** In particular a 65534-byte body is announced as empty, and reading it
      back panics on the group byte. */
  lemma MaxBodyReadsAsEmpty(grp: Byte, cmd: Byte, body: seq<Byte>, svr: bool)
    requires |body| == U16Modulus - 2
    ensures Read(Write(grp, cmd, body), svr) == IndexPanic
  {
    var f := Write(grp, cmd, body);
    assert f[0] == 0 && f[1] == 0;
  }

  /** A frame cut short is padded with zero bytes: a login request that
      announces five bytes but carries only group and command is handed to
      the decoder as three zero bytes. */
  lemma ShortFrameIsZeroPadded()
    ensures Read([0, 5, 1, 1], true) == Framed(Message(1, 1), ReqLogin, [0, 0, 0], [])
  {
    assert TypeKey(1, 1) == 1001;
  }
}
