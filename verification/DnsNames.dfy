/** Domain names in DNS messages, sections 3.1, 4.1.4 and 5.1 of RFC 1035: a sequence of
    labels ended by the root or by a pointer to an earlier place in the message. */
module DnsNames {
  import opened Wrappers
  import opened Bytes

  type Label = seq<Byte>

  datatype Expanded = Expanded(labels: seq<Label>, size: nat)

  /** The name at pos, in a run of labels that began at start: its labels, and how many bytes
      it takes up there. A pointer must lead to before the run it ends. */
  function Expand(msg: seq<Byte>, start: nat, pos: nat): (r: Option<Expanded>)
    ensures r.Some? ==> 1 <= r.value.size && pos + r.value.size <= |msg|
    decreases start, |msg| - pos
  {
    if pos >= |msg| then None
    else if msg[pos] == 0 then Some(Expanded([], 1))
    else if msg[pos] < 64 then
      var next := pos + 1 + msg[pos];
      if next > |msg| then None
      else
        var rest := Expand(msg, start, next);
        if rest.None? then None
        else Some(Expanded([msg[pos + 1..next]] + rest.value.labels, 1 + msg[pos] + rest.value.size))
    else if msg[pos] >= 192 && pos + 1 < |msg| then
      var off := (msg[pos] as int - 192) * 256 + msg[pos + 1];
      if off >= start then None
      else
        var rest := Expand(msg, off, off);
        if rest.None? then None else Some(Expanded(rest.value.labels, 2))
    else None
  }

  const DOT: Byte := 0x2E
  const BACKSLASH: Byte := 0x5C

  predicate Special(b: Byte) {
    b == 0x22 || b == 0x24 || b == 0x28 || b == 0x29 || b == DOT || b == 0x3B || b == 0x40 || b == BACKSLASH
  }

  /** One byte of a label in text form: itself, or escaped as \X or \DDD. */
  function Escape(b: Byte): (s: seq<Byte>)
    ensures |s| > 0 && forall i :: 0 <= i < |s| ==> s[i] != 0
  {
    if Special(b) then [BACKSLASH, b]
    else if 0x20 < b < 0x7F then [b]
    else [BACKSLASH, 0x30 + b / 100, 0x30 + b / 10 % 10, 0x30 + b % 10]
  }

  function EscapeLabel(l: Label): (s: seq<Byte>)
    ensures forall i :: 0 <= i < |s| ==> s[i] != 0
    ensures s == [] <==> l == []
  {
    if |l| == 0 then [] else Escape(l[0]) + EscapeLabel(l[1..])
  }

  /** Labels joined by dots; the root is the empty text. */
  function Text(labels: seq<Label>): (s: seq<Byte>)
    ensures forall i :: 0 <= i < |s| ==> s[i] != 0
  {
    if |labels| == 0 then []
    else EscapeLabel(labels[0]) + (if |labels| == 1 then [] else [DOT] + Text(labels[1..]))
  }

  /** The octets a name takes up written out, with its length octets and the root. */
  function WireLength(labels: seq<Label>): nat {
    if |labels| == 0 then 1 else 1 + |labels[0]| + WireLength(labels[1..])
  }

  /** Section 2.3.4 of RFC 1035 limits a name to 255 octets; its text must fit the caller's buffer. */
  predicate Short(labels: seq<Label>) {
    WireLength(labels) <= 255 && |Text(labels)| < 255
  }

  /** dn_expand into a buffer of 255 bytes: the text (without its terminating zero) and the
      bytes consumed at pos, or None for a malformed or too long name. */
  function DnExpand(msg: seq<Byte>, pos: nat): (r: Option<(seq<Byte>, nat)>)
    ensures r.Some? ==> 1 <= r.value.1 && pos + r.value.1 <= |msg| && |r.value.0| < 255
    ensures r.Some? ==> forall i :: 0 <= i < |r.value.0| ==> r.value.0[i] != 0
  {
    var e := Expand(msg, pos, pos);
    if e.None? || !Short(e.value.labels) then None
    else Some((Text(e.value.labels), e.value.size))
  }

  // ----- writing names

  /** A name as a server may write it: some labels, then the root or a pointer. */
  datatype WireName = WireName(labels: seq<Label>, pointer: Option<nat>)

  predicate ValidLabels(labels: seq<Label>) {
    forall i :: 0 <= i < |labels| ==> 1 <= |labels[i]| <= 63
  }

  function EncodeLabels(labels: seq<Label>, tail: seq<Byte>): seq<Byte>
    requires ValidLabels(labels)
  {
    if |labels| == 0 then tail else [|labels[0]|] + labels[0] + EncodeLabels(labels[1..], tail)
  }

  predicate ValidName(w: WireName) {
    ValidLabels(w.labels) && (w.pointer.Some? ==> w.pointer.value < 0x4000)
  }

  function EncodeTail(pointer: Option<nat>): seq<Byte>
    requires pointer.Some? ==> pointer.value < 0x4000
  {
    match pointer
    case None => [0]
    case Some(off) => [192 + off / 256, off % 256]
  }

  function EncodeName(w: WireName): seq<Byte>
    requires ValidName(w)
  {
    EncodeLabels(w.labels, EncodeTail(w.pointer))
  }

  /** `part` stands at pos in msg. */
  predicate At(msg: seq<Byte>, pos: nat, part: seq<Byte>) {
    pos + |part| <= |msg| && msg[pos..pos + |part|] == part
  }

  lemma AtSplit(msg: seq<Byte>, pos: nat, a: seq<Byte>, b: seq<Byte>)
    requires At(msg, pos, a + b)
    ensures At(msg, pos, a) && At(msg, pos + |a|, b)
  {
    var s := msg[pos..pos + |a + b|];
    assert s[..|a|] == a && s[|a|..] == b;
    assert msg[pos..pos + |a|] == s[..|a|] && msg[pos + |a|..pos + |a| + |b|] == s[|a|..];
  }

  /** The labels a pointer adds: none for the root. */
  ghost predicate Resolves(msg: seq<Byte>, start: nat, pointer: Option<nat>) {
    pointer.Some? ==> pointer.value < start && pointer.value < 0x4000 && Expand(msg, pointer.value, pointer.value).Some?
  }

  ghost function Suffix(msg: seq<Byte>, pointer: Option<nat>): seq<Label> {
    if pointer.Some? && Expand(msg, pointer.value, pointer.value).Some?
    then Expand(msg, pointer.value, pointer.value).value.labels else []
  }

  lemma AtIndex(msg: seq<Byte>, pos: nat, part: seq<Byte>, i: nat)
    requires At(msg, pos, part) && i < |part|
    ensures msg[pos + i] == part[i]
  {
    assert msg[pos..pos + |part|][i] == part[i];
  }

  lemma ExpandTail(msg: seq<Byte>, start: nat, pos: nat, pointer: Option<nat>)
    requires Resolves(msg, start, pointer) && At(msg, pos, EncodeTail(pointer))
    ensures Expand(msg, start, pos) == Some(Expanded(Suffix(msg, pointer), |EncodeTail(pointer)|))
  {
    var tail := EncodeTail(pointer);
    AtIndex(msg, pos, tail, 0);
    if pointer.Some? {
      AtIndex(msg, pos, tail, 1);
      var off := pointer.value;
      assert (192 + off / 256 - 192) * 256 + off % 256 == off;
    }
  }

  lemma ExpandLabel(msg: seq<Byte>, start: nat, pos: nat, l: Label)
    requires 1 <= |l| <= 63 && At(msg, pos, [|l|]) && At(msg, pos + 1, l) && Expand(msg, start, pos + 1 + |l|).Some?
    ensures var rest := Expand(msg, start, pos + 1 + |l|).value;
            Expand(msg, start, pos) == Some(Expanded([l] + rest.labels, 1 + |l| + rest.size))
  {
    AtIndex(msg, pos, [|l|], 0);
  }

  /** Names read back as they were written, compressed or not. */
  lemma {:induction false} ExpandEncoded(msg: seq<Byte>, start: nat, pos: nat, w: WireName)
    requires ValidName(w) && start <= pos && At(msg, pos, EncodeName(w)) && Resolves(msg, start, w.pointer)
    ensures Expand(msg, start, pos) == Some(Expanded(w.labels + Suffix(msg, w.pointer), |EncodeName(w)|))
    decreases |w.labels|
  {
    hide Expand, Suffix, Resolves, EncodeTail, At;
    if |w.labels| > 0 {
      var l, rest := w.labels[0], WireName(w.labels[1..], w.pointer);
      assert EncodeName(w) == [|l|] + l + EncodeName(rest);
      AtSplit(msg, pos, [|l|] + l, EncodeName(rest));
      AtSplit(msg, pos, [|l|], l);
      ExpandEncoded(msg, start, pos + 1 + |l|, rest);
      ExpandLabel(msg, start, pos, l);
      assert [l] + (rest.labels + Suffix(msg, w.pointer)) == w.labels + Suffix(msg, w.pointer);
    } else {
      assert w.labels + Suffix(msg, w.pointer) == Suffix(msg, w.pointer);
      assert EncodeName(w) == EncodeTail(w.pointer);
      ExpandTail(msg, start, pos, w.pointer);
    }
  }

  // ----- reading the text form

  predicate Digit(b: Byte) {
    0x30 <= b <= 0x39
  }

  /** The character at the front of a text and how much of the text it takes: \DDD is the byte of
      that number, \X is X, any other byte is itself. */
  function ReadChar(s: seq<Byte>): (r: (Byte, nat))
    requires |s| > 0
    ensures 1 <= r.1 <= |s|
  {
    if s[0] != BACKSLASH || |s| == 1 then (s[0], 1)
    else if |s| >= 4 && Digit(s[1]) && Digit(s[2]) && Digit(s[3]) then
      var v := (s[1] - 0x30) as int * 100 + (s[2] - 0x30) as int * 10 + (s[3] - 0x30) as int;
      (if v < 256 then v else 0, 4)
    else (s[1], 2)
  }

  /** The labels of a text, of which `part` is the beginning of the first: they end at the dots
      that are not escaped. */
  function ReadLabels(s: seq<Byte>, part: Label): seq<Label>
    decreases |s|
  {
    if |s| == 0 then [part]
    else if s[0] == DOT then [part] + ReadLabels(s[1..], [])
    else var (b, n) := ReadChar(s); ReadLabels(s[n..], part + [b])
  }

  /** The labels a domain name in text form stands for, section 5.1 of RFC 1035. */
  function ReadText(s: seq<Byte>): seq<Label> {
    if |s| == 0 then [] else ReadLabels(s, [])
  }

  lemma ReadEscape(b: Byte, rest: seq<Byte>, part: Label)
    ensures ReadLabels(Escape(b) + rest, part) == ReadLabels(rest, part + [b])
  {
    hide Escape, ReadChar;
    var s := Escape(b) + rest;
    EscapedChar(b, rest);
    assert s[|Escape(b)|..] == rest;
  }

  lemma EscapedChar(b: Byte, rest: seq<Byte>)
    ensures var s := Escape(b) + rest; s[0] != DOT && ReadChar(s) == (b, |Escape(b)|)
  {
    if !Special(b) && !(0x20 < b < 0x7F) {
      var s := Escape(b) + rest;
      assert s[0] == BACKSLASH && s[1] == 0x30 + b / 100 && s[2] == 0x30 + b / 10 % 10 && s[3] == 0x30 + b % 10;
      DecimalDigits(b);
    }
  }

  lemma DecimalDigits(b: Byte)
    ensures b / 100 < 10 && b / 10 % 10 < 10 && b % 10 < 10
    ensures b / 100 * 100 + b / 10 % 10 * 10 + b % 10 == b
  {
  }

  lemma {:induction false} ReadEscaped(l: Label, rest: seq<Byte>, part: Label)
    ensures ReadLabels(EscapeLabel(l) + rest, part) == ReadLabels(rest, part + l)
    decreases |l|
  {
    hide Escape, ReadLabels;
    if |l| == 0 {
      assert EscapeLabel(l) + rest == rest && part + l == part;
    } else {
      assert EscapeLabel(l) + rest == Escape(l[0]) + (EscapeLabel(l[1..]) + rest);
      ReadEscape(l[0], EscapeLabel(l[1..]) + rest, part);
      ReadEscaped(l[1..], rest, part + [l[0]]);
      assert part + [l[0]] + l[1..] == part + l;
    }
  }

  /** A text reads back as the labels it was made of, dots and all. */
  lemma {:induction false} TextReadsBack(labels: seq<Label>)
    requires ValidLabels(labels)
    ensures ReadText(Text(labels)) == labels
    ensures labels != [] ==> Text(labels) != [] && ReadLabels(Text(labels), []) == labels
    decreases |labels|
  {
    hide EscapeLabel, ReadLabels;
    if |labels| == 1 {
      ReadEscaped(labels[0], [], []);
      assert Text(labels) == EscapeLabel(labels[0]) + [];
      assert [] + labels[0] == labels[0] && labels == [labels[0]];
      ReadEnd(labels[0]);
    } else if |labels| > 1 {
      var rest := [DOT] + Text(labels[1..]);
      assert ValidLabels(labels[1..]);
      TextReadsBack(labels[1..]);
      assert Text(labels) == EscapeLabel(labels[0]) + rest;
      ReadEscaped(labels[0], rest, []);
      assert [] + labels[0] == labels[0];
      ReadDot(labels[0], Text(labels[1..]));
      assert labels == [labels[0]] + labels[1..];
    }
  }

  lemma ReadEnd(part: Label)
    ensures ReadLabels([], part) == [part]
  {
  }

  lemma ReadDot(part: Label, s: seq<Byte>)
    ensures ReadLabels([DOT] + s, part) == [part] + ReadLabels(s, [])
  {
    assert ([DOT] + s)[1..] == s;
  }

  /** A byte that prints and is not special. */
  predicate PlainByte(b: Byte) {
    0x20 < b < 0x7F && !Special(b)
  }

  /** Only what must be escaped is: a label of letters, digits and hyphens is its own text. */
  lemma {:induction false} PlainLabel(l: Label)
    requires forall i :: 0 <= i < |l| ==> PlainByte(l[i])
    ensures EscapeLabel(l) == l
  {
    if |l| > 0 {
      PlainLabel(l[1..]);
      assert l == [l[0]] + l[1..];
    }
  }

  /** The labels of any name read from a message are 1 to 63 bytes long. */
  lemma {:induction false} ExpandValid(msg: seq<Byte>, start: nat, pos: nat)
    requires Expand(msg, start, pos).Some?
    ensures ValidLabels(Expand(msg, start, pos).value.labels)
    decreases start, |msg| - pos
  {
    if msg[pos] == 0 {
    } else if msg[pos] < 64 {
      ExpandValid(msg, start, pos + 1 + msg[pos]);
    } else {
      var off := (msg[pos] as int - 192) * 256 + msg[pos + 1];
      ExpandValid(msg, off, off);
    }
  }

  const EXAMPLE: seq<Byte> := [1, 0x61, 2, 0x69, 0x6F, 0, 1, 0x62, 0xC0, 2]

  /** "a.io" at 0 and, at 6, "b" with a pointer to the "io" at 2, byte for byte. */
  lemma CompressionExample()
    ensures Expand(EXAMPLE, 0, 0) == Some(Expanded([[0x61], [0x69, 0x6F]], 6))
    ensures Expand(EXAMPLE, 6, 6) == Some(Expanded([[0x62], [0x69, 0x6F]], 4))
    ensures DnExpand(EXAMPLE, 6) == Some(([0x62, DOT, 0x69, 0x6F], 4))
  {
    hide Expand, Text, EscapeLabel;
    ExampleLabel(0, 2, [0x69, 0x6F], 5);
    ExampleLabel(2, 2, [0x69, 0x6F], 5);
    ExampleLabel(0, 0, [0x61], 2);
    ExampleRoot(0);
    ExampleRoot(2);
    ExamplePointer();
    ExampleLabel(6, 6, [0x62], 8);
    var a: Label, b: Label, io: Label := [0x61], [0x62], [0x69, 0x6F];
    assert [io] + [] == [io] && [a] + [io] == [a, io] && [b] + [io] == [b, io];
    ExampleText();
  }

  lemma ExampleLabel(start: nat, pos: nat, l: Label, next: nat)
    requires pos < next < |EXAMPLE| && 0 < |l| < 64 && EXAMPLE[pos] == |l| && next == pos + 1 + |l|
    requires EXAMPLE[pos + 1..next] == l && start <= pos
    ensures Expand(EXAMPLE, start, next).Some? ==>
              var rest := Expand(EXAMPLE, start, next).value;
              Expand(EXAMPLE, start, pos) == Some(Expanded([l] + rest.labels, 1 + |l| + rest.size))
  {
  }

  lemma ExampleRoot(start: nat)
    ensures Expand(EXAMPLE, start, 5) == Some(Expanded([], 1))
  {
  }

  lemma ExamplePointer()
    ensures Expand(EXAMPLE, 2, 2).Some? ==>
              Expand(EXAMPLE, 6, 8) == Some(Expanded(Expand(EXAMPLE, 2, 2).value.labels, 2))
  {
  }

  lemma ExampleText()
    ensures Text([[0x62], [0x69, 0x6F]]) == [0x62, DOT, 0x69, 0x6F] && Short([[0x62], [0x69, 0x6F]])
  {
    PlainLabel([0x62]);
    PlainLabel([0x69, 0x6F]);
  }

  /** The limit on a name: three labels of 63 bytes and one of 61 are accepted, with one byte more
      they are not, although their text would fit the buffer. */
  lemma LongestName(l: Label, m: Label)
    requires |l| == 63 && |m| == 61 && forall b: Byte :: b in l || b in m ==> PlainByte(b)
    ensures Short([l, l, l, m]) && !Short([l, l, l, m + [m[0]]])
    ensures |Text([l, l, l, m + [m[0]]])| < 255
  {
    PlainLabel(l);
    PlainLabel(m);
    PlainLabel(m + [m[0]]);
    forall x: Label | |x| < 63 && EscapeLabel(x) == x
      ensures WireLength([l, l, l, x]) == 194 + |x| && |Text([l, l, l, x])| == 192 + |x|
    {
      ThreeAndOne(l, x);
    }
  }

  lemma ThreeAndOne(l: Label, x: Label)
    requires EscapeLabel(l) == l && EscapeLabel(x) == x && |l| == 63
    ensures WireLength([l, l, l, x]) == 194 + |x| && |Text([l, l, l, x])| == 192 + |x|
  {
    hide EscapeLabel;
    assert [l, l, l, x][1..] == [l, l, x] && [l, l, x][1..] == [l, x] && [l, x][1..] == [x] && [x][1..] == [];
    assert WireLength([x]) == 2 + |x| && WireLength([l, x]) == 66 + |x| && WireLength([l, l, x]) == 130 + |x|;
    assert Text([x]) == x && |Text([l, x])| == 64 + |x| && |Text([l, l, x])| == 128 + |x|;
  }
}
