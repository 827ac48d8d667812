/** C strings: the bytes in front of the NUL; a pointer into one is modelled by the suffix it points to. */
module CStrings {
  datatype Option<T> = None | Some(value: T)

  predicate IsCString(s: string)
  {
    forall i :: 0 <= i < |s| ==> 0 < s[i] as int < 256
  }

  /** Reading the byte at `s + i`, up to the terminator. */
  function At(s: string, i: nat): char
  {
    if i < |s| then s[i] else '\0'
  }

  /** The value of a plain `char`, which is signed on i686. */
  function Plain(c: char): int
  {
    if c as int < 128 then c as int else c as int - 256
  }
}
