/** Wide strings as the file filter sees them: sequences of 16-bit code units. */
module Text {

  newtype WChar = c: int | 0 <= c < 0x1_0000

  type WString = seq<WChar>

  /** Whether a latin letter is a pinyin spelling of an ideograph. With pinyin switched off it is the empty relation. */
  type PinYin = (WChar, WChar) -> bool

  /** Everything one comparison of a filter with a file name depends on. */
  datatype Task = Task(pinyin: PinYin, filter: WString, name: WString, anchored: bool)

  /** The j-th filter letter stands for the i-th letter of the name. */
  predicate Same(t: Task, i: nat, j: nat)
    requires i < |t.name| && j < |t.filter|
  {
    t.filter[j] == t.name[i] || t.pinyin(t.filter[j], t.name[i])
  }
}
