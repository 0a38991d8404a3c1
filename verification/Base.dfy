/** Types and facts shared by all components. */
module Base {

  datatype Option<T> = None | Some(value: T)

  type Byte = x: int | 0 <= x < 0x100

  type Word = x: int | 0 <= x < 0x1_0000_0000

  const WORD_LIMIT := 0x1_0000_0000

  lemma {:induction false} SubsetSize(s: set<nat>, t: set<nat>)
    requires s <= t
    ensures |s| <= |t|
  {
    assert t == s + (t - s);
  }
}
