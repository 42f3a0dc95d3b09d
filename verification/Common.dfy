/** Result types shared by the models: a value or absence, and a value or a thrown error. */
module Common {
  datatype Option<+T> = None | Some(value: T)

  datatype Result<+T> = Ok(value: T) | Err(message: string)

  predicate Distinct<T(==)>(s: seq<T>) {
    forall i, j :: 0 <= i < j < |s| ==> s[i] != s[j]
  }

  lemma NoElements<T>(s: set<T>)
    requires forall v :: v !in s
    ensures s == {}
  {
  }

  lemma HasElement(s: set<int>)
    requires s != {}
    ensures exists v :: v in s
  {
    if forall v :: v !in s { NoElements(s); }
  }

  lemma ProductBound(d: int, k: int)
    requires d > 0
    ensures k >= 1 ==> d * k >= d
    ensures k <= -1 ==> d * k <= -d
  {
  }

  /** Quotient and remainder are unique. */
  lemma DivideBy(t: int, d: int, q: int, r: int)
    requires t == d * q + r && 0 <= r < d
    ensures t / d == q && t % d == r
  {
    assert d * (t / d - q) == r - t % d;
    ProductBound(d, t / d - q);
  }

  lemma PrefixGrows<T>(s: seq<T>, i: nat)
    requires i < |s|
    ensures s[..i + 1] == s[..i] + [s[i]]
  {
  }

  /** A number as JavaScript prints it, in decimal without leading zeros. */
  function NatText(n: nat): string {
    (if n < 10 then "" else NatText(n / 10)) + [DIGITS[n % 10]]
  }

  const CAPITALS: string := "ABCDEFGHIJKLMNOPQRSTUVWXYZ"
  const SMALL_LETTERS: string := "abcdefghijklmnopqrstuvwxyz"
  const DIGITS: string := "0123456789"

  lemma AlphabetsAreRanges(c: char)
    ensures 'A' <= c <= 'Z' <==> c in CAPITALS
    ensures 'a' <= c <= 'z' <==> c in SMALL_LETTERS
    ensures '0' <= c <= '9' <==> c in DIGITS
  {
  }
}
