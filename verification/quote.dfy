/** Option and Result, used across the model. */
module Wrappers {

  /** A value that may be absent: a missing storage key, a `findIndex` miss. */
  datatype Option<+T> = None | Some(value: T)

  /** An outcome that either carries a value or the error the source raises instead. */
  datatype Result<+R, +E> = Success(value: R) | Failure(error: E)
}

/** The quote record `{id, quote, author}` and the measure the merge compares. */
module QuoteRecord {

  /** One entry of the in-memory quote list. `id` is a JavaScript number in
      the source; only integral ids are modelled. */
  datatype Quote = Quote(id: int, quote: string, author: string)

  /** Code points at or above this bound need a surrogate pair in UTF-16. */
  const SupplementaryStart: int := 0x1_0000

  /** UTF-16 code units that one character occupies. */
  function CodeUnits(c: char): (n: nat)
    ensures 1 <= n <= 2
    ensures n == 2 <==> c as int >= SupplementaryStart
  {
    if c as int >= SupplementaryStart then 2 else 1
  }

  /** JavaScript's `String.prototype.length`: the number of UTF-16 code units
      of the string, which is what `quote.length` compares. */
  function Utf16Length(s: string): (n: nat)
    ensures |s| <= n <= 2 * |s|
    ensures n == |s| <==> forall i :: 0 <= i < |s| ==> s[i] as int < SupplementaryStart
  {
    if |s| == 0 then 0
    else
      var rest := Utf16Length(s[1..]);
      assert forall i :: 1 <= i < |s| ==> s[i] == s[1..][i - 1];
      CodeUnits(s[0]) + rest
  }

  /** The code units of a concatenation are those of its parts: with the
      width of a single character fixed by `CodeUnits`, this determines the
      length of every string, one or two units per character. */
  lemma {:induction false} Utf16LengthAppend(a: string, b: string)
    ensures Utf16Length(a + b) == Utf16Length(a) + Utf16Length(b)
    decreases |a|
  {
    if |a| == 0 {
      assert a + b == b;
    } else {
      assert (a + b)[0] == a[0];
      assert (a + b)[1..] == a[1..] + b;
      Utf16LengthAppend(a[1..], b);
    }
  }

  /** A single character occupies the code units `CodeUnits` gives it. */
  lemma Utf16LengthOfChar(c: char)
    ensures Utf16Length([c]) == CodeUnits(c)
    ensures Utf16Length([c]) == if c as int >= SupplementaryStart then 2 else 1
  {
  }

  /** JavaScript truthiness of a string: only the empty string is falsy. */
  predicate Truthy(s: string) {
    s != ""
  }

  /** `q.quote.length`. */
  function TextLength(q: Quote): nat {
    Utf16Length(q.quote)
  }
}
