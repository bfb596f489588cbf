/** Values shared by every component of the trainer. */
module BpeTypes {

  datatype Option<T> = None | Some(value: T)

  /** A raw input byte; token ids 0..255 stand for these. */
  type Byte = b: nat | b < 256

  /** An adjacent pair of token ids, the key of the frequency index. */
  datatype Pair = Pair(l: nat, r: nat)

  /** One vocabulary entry. A base byte has no right child (`r == None`);
      the Rust code marks that with a sentinel right id instead. */
  datatype Rule = Rule(l: nat, r: Option<nat>)
}
