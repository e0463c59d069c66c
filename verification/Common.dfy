/** Result datatypes and small helpers shared by the model. */
module Common {

  datatype Option<+T> = None | Some(value: T)

  /** `Err` stands for a thrown exception; its text is not modelled. */
  datatype Result<+T> = Ok(value: T) | Err

  /** One octet of a socket, file or buffer. */
  newtype Byte = x: int | 0 <= x < 256

  const CRLF := "\r\n"

  /** `s` from `n` on, nothing when it is not that long. */
  function Drop(s: string, n: nat): string {
    if n <= |s| then s[n..] else []
  }

  /** `tolower` on ASCII. */
  function ToLower(c: char): char {
    if 'A' <= c <= 'Z' then c - 'A' + 'a' else c
  }

  /** The same character, or a letter in either case: 'a' stands 32 places behind 'A'. */
  predicate SameLetter(a: char, b: char) {
    || a == b
    || ('A' <= a <= 'Z' && b as int == a as int + 32)
    || ('A' <= b <= 'Z' && a as int == b as int + 32)
  }

  lemma SameLetterExactly(a: char, b: char)
    ensures ToLower(a) == ToLower(b) <==> SameLetter(a, b)
  {
  }

  /** Names that differ in the case of letters at most. */
  predicate SameName(a: string, b: string) {
    |a| == |b| && forall i :: 0 <= i < |a| ==> SameLetter(a[i], b[i])
  }
}
