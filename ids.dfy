/** Record identifiers, the key normalisation applied when a record is
    saved, and the JavaScript operations the store performs on ids. */
module Ids {

  /** A record id as the store sees it: a JavaScript number (integral ids
      only) or a JavaScript string. */
  datatype Id = IntId(n: int) | StrId(s: string)

  predicate IsUpper(c: char) {
    'A' <= c <= 'Z'
  }

  /** ASCII lower-casing of one character; every other character is kept. */
  function LowerChar(c: char): char {
    if IsUpper(c) then (c as int + 32) as char else c
  }

  /** `String.prototype.toLowerCase`, restricted to ASCII letters. */
  function ToLower(s: string): string {
    seq(|s|, i requires 0 <= i < |s| => LowerChar(s[i]))
  }

  /** c and d are the same ASCII letter in its two cases. */
  predicate OtherCase(c: char, d: char) {
    || (IsUpper(c) && d as int == c as int + 32)
    || (IsUpper(d) && c as int == d as int + 32)
  }

  /** a and b differ at most in the case of ASCII letters, position by position. */
  predicate SameUpToCase(a: string, b: string) {
    |a| == |b| && forall i | 0 <= i < |a| :: a[i] == b[i] || OtherCase(a[i], b[i])
  }

  /** The key under which a record with this id is stored: string ids are
      lower-cased, numeric ids are kept. */
  function NormalizeId(id: Id): Id {
    match id
    case StrId(s) => StrId(ToLower(s))
    case IntId(_) => id
  }

  /** The value of the JavaScript expression `id + 1`: addition for a
      number, concatenation of the text "1" for a string. */
  function Plus1(id: Id): Id {
    match id
    case IntId(n) => IntId(n + 1)
    case StrId(s) => StrId(s + "1")
  }

  /** JavaScript truthiness of an id value: 0 and "" are falsy. */
  predicate Truthy(id: Id) {
    match id
    case IntId(n) => n != 0
    case StrId(s) => s != ""
  }

  lemma LowerCharSame(c: char, d: char)
    ensures LowerChar(c) == LowerChar(d) <==> c == d || OtherCase(c, d)
  {
  }

  /** Two string ids are stored under the same key exactly when they differ
      only in letter case. */
  lemma {:induction false} SameKeyIffSameUpToCase(a: string, b: string)
    ensures NormalizeId(StrId(a)) == NormalizeId(StrId(b)) <==> SameUpToCase(a, b)
  {
    if NormalizeId(StrId(a)) == NormalizeId(StrId(b)) {
      assert |a| == |ToLower(a)| == |ToLower(b)| == |b|;
      forall i | 0 <= i < |a| ensures a[i] == b[i] || OtherCase(a[i], b[i]) {
        assert ToLower(a)[i] == ToLower(b)[i];
        LowerCharSame(a[i], b[i]);
      }
    }
    if SameUpToCase(a, b) {
      forall i | 0 <= i < |a| ensures ToLower(a)[i] == ToLower(b)[i] {
        LowerCharSame(a[i], b[i]);
      }
      assert ToLower(a) == ToLower(b);
    }
  }

  /** A normalised key contains no upper-case letter, so normalising it
      again changes nothing. */
  lemma NormalizeIdIdempotent(id: Id)
    ensures NormalizeId(NormalizeId(id)) == NormalizeId(id)
    ensures NormalizeId(id).StrId? ==> forall i | 0 <= i < |NormalizeId(id).s| :: !IsUpper(NormalizeId(id).s[i])
  {
    if id.StrId? {
      assert ToLower(ToLower(id.s)) == ToLower(id.s);
    }
  }

  /** A string that holds an upper-case letter is never a normalised key. */
  lemma UpperIsNotNormalized(s: string)
    requires ToLower(s) != s
    ensures forall id :: NormalizeId(id) != StrId(s)
  {
    forall id ensures NormalizeId(id) != StrId(s) {
      NormalizeIdIdempotent(id);
    }
  }

  /** Only the numeric id n itself is stored under the numeric key n. */
  lemma NormalizedToIntId(id: Id, n: int)
    ensures NormalizeId(id) == IntId(n) <==> id == IntId(n)
  {
  }
}
