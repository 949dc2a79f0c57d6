/**
 * PHP strings are byte strings. A byte is written here as a character
 * whose code point is below 256, so that string literals of the source
 * (all ASCII) can be used directly.
 */
module PhpStrings {

  type Byte = c: char | c as int < 256 witness '\0'

  type PhpString = seq<Byte>

  datatype Option<T> = None | Some(value: T)

}
