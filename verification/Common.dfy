/** Result types and the integer range of the host language. */
module Common {

  datatype Option<+T> = None | Some(value: T)

  /** A value, or the exception the source throws. */
  datatype Result<+T, +E> = Ok(value: T) | Err(error: E)

  const MAX_SAFE_INTEGER: int := 9_007_199_254_740_991

  /** `Number.isSafeInteger` on an integer. */
  predicate Safe(x: int) {
    -MAX_SAFE_INTEGER <= x <= MAX_SAFE_INTEGER
  }

  lemma TakeDrop<T>(s: seq<T>, i: nat)
    requires i <= |s|
    ensures s[..i] + s[i..] == s
  {
  }

  lemma Assoc<T>(a: seq<T>, b: seq<T>, c: seq<T>)
    ensures (a + b) + c == a + (b + c)
  {
  }

  /** White space and line ends, as `trim` removes them and `\\s` matches them. */
  predicate Blank(c: char) {
    || '\t' <= c <= '\r' || c == ' ' || c == '\U{A0}' || c == '\U{1680}' || '\U{2000}' <= c <= '\U{200A}'
    || c == '\U{2028}' || c == '\U{2029}' || c == '\U{202F}' || c == '\U{205F}' || c == '\U{3000}' || c == '\U{FEFF}'
  }
}
