/** The key decoder of `editorReadKey`: one logical key out of the bytes the
    terminal delivers. The bytes still to come are a finite sequence; a read
    past its end is a read that timed out (the terminal is in raw mode with
    a 100 ms read timeout). */
module KeyDecoder {
  import opened Ascii

  /** A logical key. `Char(b)` is a byte passed on as it is; `Char(ESC)` is
      also what every unrecognised or cut-short escape sequence becomes. */
  datatype Key =
    | Char(c: Byte)
    | ArrowLeft | ArrowRight | ArrowUp | ArrowDown
    | DelKey | HomeKey | EndKey | PageUp | PageDown

  /** `CTRL_KEY('q')`, the quit key. */
  const CTRL_Q: Byte := 0x71 % 0x20

  const LEFT_BRACKET: Byte := 0x5B
  const LETTER_O: Byte := 0x4F
  const TILDE: Byte := 0x7E

  /** The `int` that `editorReadKey` returns for a key: the members of
      `enum editorKey` count up from 1000, and a byte comes back through a
      signed `char`, so bytes from 0x80 on are negative. */
  function Code(k: Key): (v: int)
    ensures k.Char? ==> -0x80 <= v < 0x80
    ensures !k.Char? ==> 1000 <= v <= 1008
  {
    match k
    case Char(c) => if c < 0x80 then c else c - 0x100
    case ArrowLeft => 1000
    case ArrowRight => 1001
    case ArrowUp => 1002
    case ArrowDown => 1003
    case DelKey => 1004
    case HomeKey => 1005
    case EndKey => 1006
    case PageUp => 1007
    case PageDown => 1008
  }

  /** Distinct keys reach the caller as distinct integers. */
  lemma CodeInjective(a: Key, b: Key)
    requires Code(a) == Code(b)
    ensures a == b
  {
    match a
    case Char(c) =>
      assert b.Char?;
      if c < 0x80 { assert b.c < 0x80; } else { assert b.c >= 0x80; }
    case _ =>
  }

  /** One decoded key and how many bytes the decoder read for it. */
  datatype Decoded = Decoded(key: Key, consumed: nat)

  /** `ESC [ d ~`, d a digit. */
  function TildeKey(d: Byte): Key {
    if d == '1' as int || d == '7' as int then HomeKey
    else if d == '2' as int || d == '8' as int then EndKey
    else if d == '3' as int then DelKey
    else if d == '5' as int then PageUp
    else if d == '6' as int then PageDown
    else Char(ESC)
  }

  /** `ESC [ x`, x not a digit. */
  function BracketKey(x: Byte): Key {
    if x == 'A' as int then ArrowUp
    else if x == 'B' as int then ArrowDown
    else if x == 'C' as int then ArrowRight
    else if x == 'D' as int then ArrowLeft
    else if x == 'H' as int then HomeKey
    else if x == 'F' as int then EndKey
    else Char(ESC)
  }

  /** `ESC O x`. */
  function LetterOKey(x: Byte): Key {
    if x == 'H' as int then HomeKey
    else if x == 'F' as int then EndKey
    else Char(ESC)
  }

  /** `editorReadKey`. The source busy-waits for the first byte, so there
      must be one. After ESC it reads two more bytes before it looks at
      either; after `ESC [ digit` it reads one more. */
  function ReadKey(input: seq<Byte>): (r: Decoded)
    requires |input| >= 1
    ensures 1 <= r.consumed <= 4 && r.consumed <= |input|
    ensures input[0] != ESC ==> r == Decoded(Char(input[0]), 1)
    ensures r.key.Char? ==> r.key.c == input[0]
  {
    if input[0] != ESC then Decoded(Char(input[0]), 1)
    else if |input| == 1 then Decoded(Char(ESC), 1)
    else if |input| == 2 then Decoded(Char(ESC), 2)
    else if input[1] == LEFT_BRACKET then
      if DIGIT_ZERO <= input[2] <= DIGIT_ZERO + 9 then
        if |input| == 3 then Decoded(Char(ESC), 3)
        else if input[3] == TILDE then Decoded(TildeKey(input[2]), 4)
        else Decoded(Char(ESC), 4)
      else Decoded(BracketKey(input[2]), 3)
    else if input[1] == LETTER_O then Decoded(LetterOKey(input[2]), 3)
    else Decoded(Char(ESC), 3)
  }

  function Csi(x: char): seq<Byte>
    requires x as int < 0x80
  {
    [ESC, LEFT_BRACKET, x as int]
  }

  function CsiTilde(d: char): seq<Byte>
    requires d as int < 0x80
  {
    [ESC, LEFT_BRACKET, d as int, TILDE]
  }

  function Ss3(x: char): seq<Byte>
    requires x as int < 0x80
  {
    [ESC, LETTER_O, x as int]
  }

  /** Every byte sequence that the decoder turns into a given named key,
      an independent table of the terminal sequences it recognises. */
  function EscapeSequences(k: Key): set<seq<Byte>> {
    match k
    case Char(_) => {}
    case ArrowUp => {Csi('A')}
    case ArrowDown => {Csi('B')}
    case ArrowRight => {Csi('C')}
    case ArrowLeft => {Csi('D')}
    case HomeKey => {CsiTilde('1'), CsiTilde('7'), Csi('H'), Ss3('H')}
    case EndKey => {CsiTilde('2'), CsiTilde('8'), Csi('F'), Ss3('F')}
    case DelKey => {CsiTilde('3')}
    case PageUp => {CsiTilde('5')}
    case PageDown => {CsiTilde('6')}
  }

  /** Some prefix of `input` is a sequence that stands for `k`. */
  ghost predicate StartsWithSequence(input: seq<Byte>, k: Key) {
    exists n :: 0 <= n <= |input| && input[..n] in EscapeSequences(k)
  }

  /** Each recognised sequence decodes to its key, whatever follows it, and
      the decoder reads exactly its bytes. */
  lemma DecodeComplete(k: Key, s: seq<Byte>, rest: seq<Byte>)
    requires s in EscapeSequences(k)
    ensures |s + rest| >= 1 && ReadKey(s + rest) == Decoded(k, |s|)
  {
    var input := s + rest;
    assert input[..|s|] == s;
    assert input[0] == ESC && input[1] == s[1] && input[2] == s[2];
    if |s| == 4 {
      assert input[3] == TILDE;
    }
  }

  /** A named key comes only from one of its sequences, and the bytes read
      for it are exactly that sequence. */
  lemma DecodeSound(input: seq<Byte>)
    requires |input| >= 1
    ensures var r := ReadKey(input);
      !r.key.Char? ==> input[..r.consumed] in EscapeSequences(r.key)
  {
    var r := ReadKey(input);
    if !r.key.Char? {
      var p := input[..r.consumed];
      assert p[0] == ESC;
      if r.consumed == 3 {
        assert p == [ESC, input[1], input[2]];
      } else {
        assert r.consumed == 4;
        assert p == [ESC, input[1], input[2], input[3]];
      }
    }
  }

  /** After an ESC the decoder gives the bare ESC exactly when no prefix of
      the input is a recognised sequence: cut-short and unknown sequences
      all fall back to ESC, never to another key. */
  lemma EscapeFallback(input: seq<Byte>)
    requires |input| >= 1 && input[0] == ESC
    ensures ReadKey(input).key == Char(ESC) <==> forall k :: !StartsWithSequence(input, k)
  {
    var r := ReadKey(input);
    if r.key == Char(ESC) {
      forall k ensures !StartsWithSequence(input, k) {
        if StartsWithSequence(input, k) {
          var n :| 0 <= n <= |input| && input[..n] in EscapeSequences(k);
          assert input == input[..n] + input[n..];
          DecodeComplete(k, input[..n], input[n..]);
        }
      }
    } else {
      DecodeSound(input);
      assert StartsWithSequence(input, r.key);
    }
  }

  /** The decoder looks at no byte it does not consume: the consumed bytes
      alone, followed by a timeout, decode to the same key. */
  lemma DecodeReadsOnlyConsumed(input: seq<Byte>)
    requires |input| >= 1
    ensures var r := ReadKey(input); ReadKey(input[..r.consumed]) == r
  {
  }

  /** The keys that successive calls of `editorReadKey` return: each call
      starts where the previous one stopped, nothing is pushed back. */
  function ReadKeys(input: seq<Byte>): seq<Key>
    decreases |input|
  {
    if input == [] then []
    else
      var r := ReadKey(input);
      [r.key] + ReadKeys(input[r.consumed..])
  }

  /** The bytes a terminal sends for a key (one of the accepted sequences
      for a named key). */
  function Encode(k: Key): (s: seq<Byte>)
    ensures 1 <= |s|
    ensures !k.Char? ==> s in EscapeSequences(k)
  {
    match k
    case Char(c) => [c]
    case ArrowUp => Csi('A')
    case ArrowDown => Csi('B')
    case ArrowRight => Csi('C')
    case ArrowLeft => Csi('D')
    case HomeKey => Csi('H')
    case EndKey => Csi('F')
    case DelKey => CsiTilde('3')
    case PageUp => CsiTilde('5')
    case PageDown => CsiTilde('6')
  }

  function EncodeAll(ks: seq<Key>): seq<Byte> {
    if ks == [] then [] else Encode(ks[0]) + EncodeAll(ks[1..])
  }

  /** Decoding the bytes of a run of keys gives the keys back, provided a
      bare ESC comes only last (an ESC followed by more bytes starts a
      sequence). */
  lemma {:induction false} ReadKeysEncodeAll(ks: seq<Key>)
    requires forall i :: 0 <= i < |ks| - 1 ==> ks[i] != Char(ESC)
    ensures ReadKeys(EncodeAll(ks)) == ks
  {
    if ks != [] {
      var e, tail := Encode(ks[0]), EncodeAll(ks[1..]);
      var input := e + tail;
      assert EncodeAll(ks) == input;
      if ks[0].Char? {
        if ks[0] == Char(ESC) {
          assert |ks| == 1;
          assert tail == [];
          assert input == [ESC];
        }
        assert ReadKey(input) == Decoded(ks[0], 1);
      } else {
        DecodeComplete(ks[0], e, tail);
      }
      assert input[|e|..] == tail;
      ReadKeysEncodeAll(ks[1..]);
      assert ks == [ks[0]] + ks[1..];
    }
  }
}
