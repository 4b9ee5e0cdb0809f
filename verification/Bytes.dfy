/** Little-endian numbers as bytes. */
module Bytes {
  import opened Basics

  function Le2(n: nat): (s: seq<Byte>)
    ensures |s| == 2
  {
    [n % 256, n / 256 % 256]
  }

  function Le4(n: nat): (s: seq<Byte>)
    ensures |s| == 4
  {
    [n % 256, n / 256 % 256, n / 0x1_0000 % 256, n / 0x100_0000 % 256]
  }

  function U2(s: seq<Byte>, i: nat): nat
    requires i + 2 <= |s|
  {
    s[i] as int + 256 * (s[i + 1] as int)
  }

  function U4(s: seq<Byte>, i: nat): nat
    requires i + 4 <= |s|
  {
    s[i] as int + 256 * (s[i + 1] as int) + 0x1_0000 * (s[i + 2] as int) + 0x100_0000 * (s[i + 3] as int)
  }

  function Words(ws: seq<nat>): (s: seq<Byte>)
    ensures |s| == 4 * |ws|
  {
    if ws == [] then [] else Le4(ws[0]) + Words(ws[1..])
  }

  lemma ReadLe4(n: nat, s: seq<Byte>, i: nat)
    requires n < WORD && i + 4 <= |s| && s[i..i + 4] == Le4(n)
    ensures U4(s, i) == n
  {
    var q := s[i..i + 4];
    assert s[i] == q[0] && s[i + 1] == q[1] && s[i + 2] == q[2] && s[i + 3] == q[3];
    Digits(n);
  }

  lemma Digits(n: nat)
    requires n < WORD
    ensures n % 256 + 256 * (n / 256 % 256) + 0x1_0000 * (n / 0x1_0000 % 256) + 0x100_0000 * (n / 0x100_0000 % 256) == n
  {
    var a, b, c := n / 0x100, n / 0x1_0000, n / 0x100_0000;
    assert n == n % 256 + 256 * a;
    assert a == a % 256 + 256 * b;
    assert b == b % 256 + 256 * c;
    assert c == c % 256;
  }

  lemma ReadLe2(n: nat, s: seq<Byte>, i: nat)
    requires n < 0x1_0000 && i + 2 <= |s| && s[i..i + 2] == Le2(n)
    ensures U2(s, i) == n
  {
  }

  lemma {:induction false} WordsBack(ws: seq<nat>, i: nat)
    requires i < |ws| && forall j :: 0 <= j < |ws| ==> ws[j] < WORD
    ensures U4(Words(ws), 4 * i) == ws[i]
  {
    hide U4, Le4;
    var s := Words(ws);
    if i == 0 {
      assert s[0..4] == Le4(ws[0]);
      ReadLe4(ws[0], s, 0);
    } else {
      WordsBack(ws[1..], i - 1);
      assert s[4..] == Words(ws[1..]);
      U4Drop(s, 4, 4 * (i - 1));
    }
  }

  lemma U4Drop(s: seq<Byte>, p: nat, i: nat)
    requires p + i + 4 <= |s|
    ensures U4(s, p + i) == U4(s[p..], i)
  {
  }

  function WordsAt(s: seq<Byte>, n: nat): seq<nat>
    requires 4 * n <= |s|
  {
    seq(n, i requires 0 <= i < n => U4(s, 4 * i))
  }

  lemma WordsAtBack(ws: seq<nat>)
    requires forall i :: 0 <= i < |ws| ==> ws[i] < WORD
    ensures WordsAt(Words(ws), |ws|) == ws
  {
    hide U4, Words;
    forall i | 0 <= i < |ws| ensures WordsAt(Words(ws), |ws|)[i] == ws[i] {
      WordsBack(ws, i);
    }
  }
}
