/** Small value types shared by the parser and the dump writer/reader. */
module Common {

  /** One octet of a file or of a serialized record. */
  newtype byte = x: int | 0 <= x < 0x100

  /** The conventional Some/None datatype, used where the source returns a null pointer or a failed read. */
  datatype Option<+T> = None | Some(value: T)

  /** The number of values a 32-bit unsigned counter can hold. */
  const TwoTo32: nat := 0x1_0000_0000

  /** The bounds of a C `int` (32 bits) and of a 64-bit `long`. */
  const IntMin: int := -0x8000_0000
  const IntMax: int := 0x7FFF_FFFF
  const LongMin: int := -0x8000_0000_0000_0000
  const LongMax: int := 0x7FFF_FFFF_FFFF_FFFF

  /** Concatenation of a sequence of sequences, in order. */
  function Flatten<T>(ss: seq<seq<T>>): (r: seq<T>)
    ensures |ss| == 0 ==> r == []
  {
    if |ss| == 0 then [] else ss[0] + Flatten(ss[1..])
  }

  lemma {:induction false} FlattenAppend<T>(ss: seq<seq<T>>, s: seq<T>)
    ensures Flatten(ss + [s]) == Flatten(ss) + s
  {
    if |ss| == 0 {
      assert ss + [s] == [s];
    } else {
      assert (ss + [s])[1..] == ss[1..] + [s];
      FlattenAppend(ss[1..], s);
    }
  }
}
