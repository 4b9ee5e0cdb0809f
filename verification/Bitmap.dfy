/** The bitmaps of the physical pool and of the kernel's page frames (kernel/allocator/pool.cpp,
    kernel/allocator/frame.cpp): words of 32 bits, each given here by its bits, lowest first. */
module Bitmap {
  import opened Basics
  import opened Frames

  const WIDTH: nat := 32

  /** std::countr_one: the number of set bits below the lowest clear one. */
  method CountrOne(w: seq<bool>) returns (pos: nat)
    ensures pos <= |w| && (forall j :: 0 <= j < pos ==> w[j]) && (pos < |w| ==> !w[pos])
  {
    pos := 0;
    while pos < |w| && w[pos]
      invariant pos <= |w| && forall j :: 0 <= j < pos ==> w[j]
    {
      pos := pos + 1;
    }
  }

  lemma {:induction false} FirstClearIs(bits: seq<bool>, n: nat, k: nat)
    requires n <= k < |bits| && !bits[k] && forall j :: n <= j < k ==> bits[j]
    ensures FirstClear(bits, n) == Some(k)
    decreases k - n
  {
  }

  lemma {:induction false} NoneClear(bits: seq<bool>, n: nat)
    requires n <= |bits| && forall j :: n <= j < |bits| ==> bits[j]
    ensures FirstClear(bits, n) == None
    decreases |bits| - n
  {
  }

  class BitmapManager {
    const words: array<seq<bool>>

    ghost predicate Valid()
      reads words
    {
      forall i :: 0 <= i < words.Length ==> |words[i]| == WIDTH
    }

    /** The bits of all words in a row. */
    ghost function Bits(): (bits: seq<bool>)
      requires Valid()
      reads words
      ensures |bits| == WIDTH * words.Length
      ensures forall j :: 0 <= j < |bits| ==> bits[j] == words[j / WIDTH][j % WIDTH]
    {
      seq(WIDTH * words.Length,
          j requires 0 <= j < WIDTH * words.Length reads words requires Valid() => words[j / WIDTH][j % WIDTH])
    }

    constructor (size: nat)
      ensures Valid() && fresh(words) && words.Length == size && forall j :: 0 <= j < |Bits()| ==> !Bits()[j]
    {
      words := new seq<bool>[size](_ => seq(WIDTH, _ => false));
    }

    /** The lowest clear bit is set and its number returned; None where the kernel stops. */
    method Alloc() returns (r: Option<nat>)
      requires Valid()
      modifies words
      ensures Valid() && r == FirstClear(old(Bits()))
      ensures Bits() == match r case None => old(Bits()) case Some(k) => old(Bits())[k := true]
    {
      var i := 0;
      while i < words.Length
        invariant i <= words.Length && words[..] == old(words[..])
        invariant forall j :: 0 <= j < WIDTH * i ==> Bits()[j]
      {
        var pos := CountrOne(words[i]);
        if pos < WIDTH {
          FirstClearIs(Bits(), 0, WIDTH * i + pos);
          words[i] := words[i][pos := true];
          return Some(WIDTH * i + pos);
        }
        i := i + 1;
      }
      NoneClear(Bits(), 0);
      return None;
    }

    method Free(offset: nat)
      requires Valid() && offset < WIDTH * words.Length
      modifies words
      ensures Valid() && Bits() == old(Bits())[offset := false]
    {
      words[offset / WIDTH] := words[offset / WIDTH][offset % WIDTH := false];
    }
  }
}
