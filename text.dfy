/** Small value types shared by the reader modules: Kotlin's nullable values and joined text. */
module Text {

  /** A value that may be absent: Kotlin's nullable `T?`. */
  datatype Option<+T> = None | Some(value: T)

  /** The strings of `parts` joined end to end, with nothing between them. */
  function Concat(parts: seq<string>): string
  {
    if parts == [] then "" else parts[0] + Concat(parts[1..])
  }

  /** Joining one more part extends the joined text by exactly that part. */
  lemma {:induction false} ConcatSnoc(parts: seq<string>, k: nat)
    requires k < |parts|
    ensures Concat(parts[..k + 1]) == Concat(parts[..k]) + parts[k]
  {
    if k > 0 {
      calc {
        Concat(parts[..k + 1]);
        { assert parts[..k + 1][1..] == parts[1..][..k]; }
        parts[0] + Concat(parts[1..][..k]);
        { ConcatSnoc(parts[1..], k - 1); assert parts[1..][..k - 1] == parts[..k][1..]; }
        parts[0] + Concat(parts[..k][1..]) + parts[k];
      }
    } else {
      assert parts[..1][1..] == [];
    }
  }
}
