/**
 Whether the platform lets a device path boot: SD card paths are recognised by a
 byte prefix, USB devices by walking the self-delimiting node encoding of section
 10.3.1 of UEFI 2.8.
 */
module BootPolicy {
  import opened Bytes
  import opened Efi

  const END_DEVICE_PATH_TYPE: Byte := 0x7F
  const END_ENTIRE_SUBTYPE: Byte := 0xFF
  const END_DEVICE_PATH_LENGTH := 4
  const MESSAGING_DEVICE_PATH: Byte := 0x03
  const MSG_USB: Byte := 0x05
  const MSG_USB_CLASS: Byte := 0x0F
  const MSG_USB_WWID: Byte := 0x10

  // ------------------------------------------------------------- encoding

  datatype Node = Node(nodeType: Byte, subType: Byte, data: seq<Byte>)

  /** A node other than the one that ends a path; its length fits the 16-bit field. */
  predicate IsInner(n: Node) {
    && |n.data| + 4 < 0x1_0000
    && !(n.nodeType == END_DEVICE_PATH_TYPE && n.subType == END_ENTIRE_SUBTYPE)
  }

  ghost predicate AllInner(ns: seq<Node>) {
    forall k :: 0 <= k < |ns| ==> IsInner(ns[k])
  }

  function NodeBytes(n: Node): (s: seq<Byte>)
    requires IsInner(n)
    ensures |s| == |n.data| + 4
  {
    var length := |n.data| + 4;
    [n.nodeType, n.subType, length % 256, length / 256] + n.data
  }

  function NodesBytes(ns: seq<Node>): seq<Byte>
    requires AllInner(ns)
  {
    if ns == [] then [] else NodeBytes(ns[0]) + NodesBytes(ns[1..])
  }

  function PathBytes(ns: seq<Node>): seq<Byte>
    requires AllInner(ns)
  {
    NodesBytes(ns) + [END_DEVICE_PATH_TYPE, END_ENTIRE_SUBTYPE, END_DEVICE_PATH_LENGTH, 0]
  }

  // --------------------------------------------------- reading from memory

  predicate IsDevicePathEnd(m: seq<Byte>, off: nat)
    requires off + 4 <= |m|
  {
    m[off] == END_DEVICE_PATH_TYPE && m[off + 1] == END_ENTIRE_SUBTYPE
  }

  function NodeLength(m: seq<Byte>, off: nat): nat
    requires off + 4 <= |m|
  {
    (m[off + 2] as int) + 256 * (m[off + 3] as int)
  }

  /** The nodes of the path at off, if it is valid: every length at least a header, inside m, and a 4-byte end node. */
  function Parse(m: seq<Byte>, off: nat): Option<seq<Node>>
    decreases |m| - off
  {
    if off + 4 > |m| then None
    else if IsDevicePathEnd(m, off) then
      if NodeLength(m, off) == END_DEVICE_PATH_LENGTH then Some([]) else None
    else
      var length := NodeLength(m, off);
      if length < 4 || off + length > |m| then None
      else
        match Parse(m, off + length)
        case None => None
        case Some(rest) => Some([Node(m[off], m[off + 1], m[off + 4..off + length])] + rest)
  }

  /** GetDevicePathSize: the sum of the node lengths, end node included. */
  function DevicePathSize(m: seq<Byte>, off: nat): nat
    requires Parse(m, off).Some?
    decreases |m| - off
  {
    if IsDevicePathEnd(m, off) then END_DEVICE_PATH_LENGTH
    else NodeLength(m, off) + DevicePathSize(m, off + NodeLength(m, off))
  }

  lemma ParseStep(m: seq<Byte>, off: nat)
    requires Parse(m, off).Some?
    ensures off + 4 <= |m|
    ensures IsDevicePathEnd(m, off) ==> Parse(m, off).value == [] && DevicePathSize(m, off) == END_DEVICE_PATH_LENGTH
    ensures !IsDevicePathEnd(m, off) ==>
      var length := NodeLength(m, off);
      && 4 <= length && off + length <= |m| && Parse(m, off + length).Some?
      && Parse(m, off).value
         == [Node(m[off], m[off + 1], m[off + 4..off + length])] + Parse(m, off + length).value
      && DevicePathSize(m, off) == length + DevicePathSize(m, off + length)
  {
  }

  /**
   What the bytes of a valid path mean: type, sub-type and a little-endian length in
   front of each node's data, the next node right behind it, and 7F FF 04 00 at the end.
   */
  lemma BytesOfNodes(m: seq<Byte>, off: nat)
    requires Parse(m, off).Some?
    ensures off + 4 <= |m|
    ensures var ns, length := Parse(m, off).value, m[off + 2] as int + 256 * m[off + 3] as int;
            if m[off] == 0x7F && m[off + 1] == 0xFF
            then ns == [] && m[off + 2] == 4 && m[off + 3] == 0
            else && 4 <= length && off + length <= |m| && ns != []
                 && ns[0] == Node(m[off], m[off + 1], m[off + 4..off + length])
                 && Parse(m, off + length) == Some(ns[1..])
  {
    ParseStep(m, off);
  }

  lemma ReadBackNode(m: seq<Byte>, off: nat, n: Node)
    requires IsInner(n) && off + |NodeBytes(n)| <= |m| && m[off..off + |NodeBytes(n)|] == NodeBytes(n)
    ensures !IsDevicePathEnd(m, off) && NodeLength(m, off) == |NodeBytes(n)|
    ensures Node(m[off], m[off + 1], m[off + 4..off + NodeLength(m, off)]) == n
  {
    var w := m[off..off + |NodeBytes(n)|];
    assert w[0] == m[off] && w[1] == m[off + 1] && w[2] == m[off + 2] && w[3] == m[off + 3];
    assert m[off + 4..off + |w|] == w[4..] == n.data;
  }

  lemma WriteBackNode(m: seq<Byte>, off: nat)
    requires off + 4 <= |m| && !IsDevicePathEnd(m, off)
    requires 4 <= NodeLength(m, off) && off + NodeLength(m, off) <= |m|
    ensures var n := Node(m[off], m[off + 1], m[off + 4..off + NodeLength(m, off)]);
            IsInner(n) && NodeBytes(n) == m[off..off + NodeLength(m, off)]
  {
    var length := NodeLength(m, off);
    assert length % 256 == m[off + 2] && length / 256 == m[off + 3];
    assert m[off..off + length] == m[off..off + 4] + m[off + 4..off + length];
    assert m[off..off + 4] == [m[off], m[off + 1], m[off + 2], m[off + 3]];
  }

  lemma ReadBackEnd(m: seq<Byte>, off: nat)
    requires off + 4 <= |m| && m[off..off + 4] == PathBytes([])
    ensures Parse(m, off) == Some([])
  {
    var w := m[off..off + 4];
    assert w == [END_DEVICE_PATH_TYPE, END_ENTIRE_SUBTYPE, END_DEVICE_PATH_LENGTH, 0];
    assert m[off] == w[0] && m[off + 1] == w[1] && m[off + 2] == w[2] && m[off + 3] == w[3];
  }

  lemma Window(m: seq<Byte>, off: nat, head: seq<Byte>, tail: seq<Byte>)
    requires off + |head| + |tail| <= |m|
    ensures m[off..off + |head| + |tail|] == head + tail
      <==> m[off..off + |head|] == head && m[off + |head|..off + |head| + |tail|] == tail
  {
    var w := m[off..off + |head| + |tail|];
    assert w[..|head|] == m[off..off + |head|];
    assert w[|head|..] == m[off + |head|..off + |head| + |tail|];
    assert w == w[..|head|] + w[|head|..];
  }

  /** Memory that starts with an encoded path, whatever follows, is read as the nodes of that path. */
  lemma {:induction false} DecodeEncode(ns: seq<Node>, m: seq<Byte>, off: nat)
    requires AllInner(ns) && off + |PathBytes(ns)| <= |m|
    requires m[off..off + |PathBytes(ns)|] == PathBytes(ns)
    ensures Parse(m, off) == Some(ns)
    decreases |ns|
  {
    if ns == [] {
      ReadBackEnd(m, off);
    } else {
      var n, rest := ns[0], ns[1..];
      assert ns == [n] + rest;
      PathStep(n, rest);
      hide NodeBytes, PathBytes, NodesBytes, IsInner;
      Window(m, off, NodeBytes(n), PathBytes(rest));
      DecodeEncode(rest, m, off + |NodeBytes(n)|);
      ReadBackNode(m, off, n);
    }
  }

  lemma PathStep(n: Node, rest: seq<Node>)
    requires IsInner(n) && AllInner(rest)
    ensures AllInner([n] + rest) && PathBytes([n] + rest) == NodeBytes(n) + PathBytes(rest)
  {
    hide NodeBytes;
    assert ([n] + rest)[1..] == rest;
  }

  /** The node list ns is written at off. */
  ghost predicate IsAt(ns: seq<Node>, m: seq<Byte>, off: nat) {
    && AllInner(ns)
    && off + |PathBytes(ns)| <= |m|
    && m[off..off + |PathBytes(ns)|] == PathBytes(ns)
  }

  lemma IsAtStep(n: Node, rest: seq<Node>, m: seq<Byte>, off: nat)
    requires IsInner(n) && IsAt(rest, m, off + |NodeBytes(n)|)
    requires m[off..off + |NodeBytes(n)|] == NodeBytes(n)
    ensures IsAt([n] + rest, m, off) && |PathBytes([n] + rest)| == |NodeBytes(n)| + |PathBytes(rest)|
  {
    PathStep(n, rest);
    Window(m, off, NodeBytes(n), PathBytes(rest));
    hide NodesBytes, PathBytes, NodeBytes, IsInner;
  }

  /** A valid path in memory is the encoding of the nodes read, and has the size computed. */
  lemma {:induction false} EncodeDecode(m: seq<Byte>, off: nat)
    requires Parse(m, off).Some?
    ensures IsAt(Parse(m, off).value, m, off)
    ensures DevicePathSize(m, off) == |PathBytes(Parse(m, off).value)|
    decreases |m| - off
  {
    ParseStep(m, off);
    hide Parse, DevicePathSize, NodesBytes, PathBytes, NodeBytes, IsDevicePathEnd, IsInner, IsAt;
    if IsDevicePathEnd(m, off) {
      EndBytes(m, off);
    } else {
      WriteBackNode(m, off);
      var length := NodeLength(m, off);
      hide NodeLength;
      EncodeDecode(m, off + length);
      IsAtStep(Node(m[off], m[off + 1], m[off + 4..off + length]), Parse(m, off + length).value, m, off);
    }
  }

  lemma EndBytes(m: seq<Byte>, off: nat)
    requires Parse(m, off) == Some([])
    ensures IsAt([], m, off) && |PathBytes([])| == 4
  {
    assert NodeLength(m, off) == 4;
    assert m[off + 2] == 4 && m[off + 3] == 0;
  }

  /** The encoding is self-delimiting: a node whose bytes start another node's bytes is that node. */
  lemma NodeBytesDetermine(a: Node, b: Node, restA: seq<Byte>, restB: seq<Byte>)
    requires IsInner(a) && IsInner(b)
    requires NodeBytes(a) + restA <= NodeBytes(b) + restB
    ensures a == b
  {
    var s, t := NodeBytes(a) + restA, NodeBytes(b) + restB;
    assert t[0] == s[0] == a.nodeType && t[1] == s[1] == a.subType && t[2] == s[2] && t[3] == s[3];
    assert |a.data| == |b.data|;
    forall k | 0 <= k < |a.data| ensures a.data[k] == b.data[k] {
      assert s[k + 4] == t[k + 4];
    }
  }

  /** The size test together with the byte comparison is the proper-prefix relation on nodes. */
  lemma {:induction false} BytePrefixIsNodePrefix(sd: seq<Node>, ns: seq<Node>)
    requires AllInner(sd) && AllInner(ns)
    ensures |PathBytes(ns)| > |PathBytes(sd)| && NodesBytes(sd) <= PathBytes(ns) <==> sd < ns
    decreases |sd|
  {
    if sd == [] {
    } else if ns == [] {
    } else {
      var a, b := sd[0], ns[0];
      assert PathBytes(ns) == NodeBytes(b) + PathBytes(ns[1..]);
      BytePrefixIsNodePrefix(sd[1..], ns[1..]);
      if NodesBytes(sd) <= PathBytes(ns) {
        NodeBytesDetermine(a, b, NodesBytes(sd[1..]), PathBytes(ns[1..]));
        SamePrefix(NodeBytes(a), NodesBytes(sd[1..]), PathBytes(ns[1..]));
      }
      if sd < ns {
        assert a == b && sd[1..] <= ns[1..];
      }
      if a == b {
        SamePrefix(NodeBytes(a), NodesBytes(sd[1..]), PathBytes(ns[1..]));
        assert sd == [a] + sd[1..] && ns == [a] + ns[1..];
        SamePrefix([a], sd[1..], ns[1..]);
      }
    }
  }

  lemma SamePrefix<T>(front: seq<T>, a: seq<T>, b: seq<T>)
    ensures front + a <= front + b <==> a <= b
  {
    if front + a <= front + b {
      assert a == (front + a)[|front|..] && b == (front + b)[|front|..];
    }
  }

  // ------------------------------------------------------------ the policy

  /** Messaging nodes (type 3) of sub-type 5, 15 or 16. */
  predicate IsUsb(n: Node): (r: bool)
    ensures r <==> n.nodeType == 0x03 && (n.subType == 0x05 || n.subType == 0x0F || n.subType == 0x10)
  {
    && n.nodeType == MESSAGING_DEVICE_PATH
    && (n.subType == MSG_USB || n.subType == MSG_USB_WWID || n.subType == MSG_USB_CLASS)
  }

  /** What the platform promises, on node lists. */
  ghost predicate Bootable(ns: seq<Node>, sdCard: Option<seq<Node>>, usbEnabled: bool) {
    && !(sdCard.Some? && sdCard.value < ns)
    && (usbEnabled || forall n :: n in ns ==> !IsUsb(n))
  }

  /** IsDevicePathValid: the path can be parsed, and nothing else about it is refused. */
  predicate IsDevicePathValid(m: seq<Byte>, accepts: seq<Node> -> bool) {
    Parse(m, 0).Some? && accepts(Parse(m, 0).value)
  }

  /**
   usbSetting is None when the settings protocol or the setting cannot be read;
   accepts is what the validity check asks beyond well-formedness, such as limits on
   the size and the number of nodes.
   */
  method IsDevicePathBootable(path: Option<seq<Byte>>, accepts: seq<Node> -> bool,
                              sdCard: Option<seq<Byte>>, usbSetting: Option<bool>)
    returns (rc: bool)
    requires sdCard.Some? ==> Parse(sdCard.value, 0).Some?
    ensures path.None? ==> rc
    ensures path.Some? && !IsDevicePathValid(path.value, accepts) ==> !rc
    ensures path.Some? && (Parse(path.value, 0).None? || !accepts(Parse(path.value, 0).value)) ==> !rc
    ensures path.Some? && IsDevicePathValid(path.value, accepts) ==>
      rc == Bootable(
        Parse(path.value, 0).value,
        if sdCard.Some? then Parse(sdCard.value, 0) else None,
        usbSetting != Some(false))
    ensures path.Some? && IsDevicePathValid(path.value, accepts) ==>
      var ns := Parse(path.value, 0).value;
      var onSdCard := sdCard.Some? && Parse(sdCard.value, 0).value < ns;
      && (onSdCard ==> !rc)
      && (!onSdCard && usbSetting != Some(false) ==> rc)
      && (!onSdCard && usbSetting == Some(false) ==>
            (!rc <==> exists k :: 0 <= k < |ns| && ns[k].nodeType == 0x03
                                  && (ns[k].subType == 0x05 || ns[k].subType == 0x0F || ns[k].subType == 0x10)))
  {
    rc := true;
    if path.None? { return true; }
    var m := path.value;
    if !IsDevicePathValid(m, accepts) { return false; }
    ghost var ns := Parse(m, 0).value;
    EncodeDecode(m, 0);
    var size := DevicePathSize(m, 0);
    if sdCard.Some? {
      var sd := sdCard.value;
      EncodeDecode(sd, 0);
      var sdSize := DevicePathSize(sd, 0);
      SdCardTest(m, sd);
      if size > sdSize {
        if m[..sdSize - END_DEVICE_PATH_LENGTH] == sd[..sdSize - END_DEVICE_PATH_LENGTH] {
          rc := false;
        }
      }
    }
    if rc {
      var enableUsbBoot := if usbSetting.Some? then usbSetting.value else true;
      if !enableUsbBoot {
        rc := HasNoUsbNode(m);
      }
    }
    UsbByPosition(ns);
    hide Parse, DevicePathSize, IsUsb;
  }

  lemma SdCardTest(m: seq<Byte>, sd: seq<Byte>)
    requires Parse(m, 0).Some? && Parse(sd, 0).Some?
    ensures var size, sdSize := DevicePathSize(m, 0), DevicePathSize(sd, 0);
            && 4 <= sdSize <= |sd| && size <= |m|
            && (size > sdSize && m[..sdSize - 4] == sd[..sdSize - 4]
                <==> Parse(sd, 0).value < Parse(m, 0).value)
  {
    EncodeDecode(m, 0);
    EncodeDecode(sd, 0);
    hide Parse, DevicePathSize;
    var ns, sdNodes := Parse(m, 0).value, Parse(sd, 0).value;
    BytePrefixIsNodePrefix(sdNodes, ns);
    Comparison(m, sd, PathBytes(ns), NodesBytes(sdNodes), PathBytes(sdNodes));
  }

  lemma Comparison(m: seq<Byte>, sd: seq<Byte>, path: seq<Byte>, sdInner: seq<Byte>, sdPath: seq<Byte>)
    requires |path| <= |m| && m[0..|path|] == path
    requires |sdPath| <= |sd| && sd[0..|sdPath|] == sdPath
    requires |sdPath| == |sdInner| + 4 && sdPath[..|sdInner|] == sdInner
    ensures |path| > |sdPath| ==> (m[..|sdInner|] == sd[..|sdInner|] <==> sdInner <= path)
  {
    assert sd[..|sdInner|] == sd[0..|sdPath|][..|sdInner|];
    if |path| > |sdPath| {
      assert m[..|sdInner|] == m[0..|path|][..|sdInner|];
    }
  }

  lemma UsbByPosition(ns: seq<Node>)
    ensures (exists n :: n in ns && IsUsb(n))
      <==> exists k :: 0 <= k < |ns| && ns[k].nodeType == 0x03
                       && (ns[k].subType == 0x05 || ns[k].subType == 0x0F || ns[k].subType == 0x10)
  {
    if k :| 0 <= k < |ns| && IsUsb(ns[k]) { assert ns[k] in ns; }
  }

  /** The walk over a valid path; it stops at the first USB node or at the end node. */
  method HasNoUsbNode(m: seq<Byte>) returns (rc: bool)
    requires Parse(m, 0).Some?
    ensures rc <==> forall n :: n in Parse(m, 0).value ==> !IsUsb(n)
  {
    hide Parse, DevicePathSize;
    rc := true;
    var node := 0;
    ghost var seen: seq<Node> := [];
    ParseStep(m, 0);
    while !IsDevicePathEnd(m, node)
      invariant node + 4 <= |m| && Parse(m, node).Some?
      invariant Parse(m, 0).value == seen + Parse(m, node).value
      invariant IsDevicePathEnd(m, node) ==> Parse(m, node).value == []
      invariant forall n :: n in seen ==> !IsUsb(n)
      decreases |m| - node
    {
      ParseStep(m, node);
      ghost var rest := Parse(m, node).value;
      if m[node] == MESSAGING_DEVICE_PATH {
        if m[node + 1] == MSG_USB || m[node + 1] == MSG_USB_WWID || m[node + 1] == MSG_USB_CLASS {
          assert IsUsb(rest[0]) && rest[0] in Parse(m, 0).value;
          return false;
        }
      }
      seen := seen + [rest[0]];
      node := node + NodeLength(m, node);
      ParseStep(m, node);
    }
  }
}
