/** String helpers the importer uses: the case mapping of strings.ToLower
    (restricted to ASCII) and the first-occurrence search of strings.Index. */
module Text {

  datatype Option<+T> = None | Some(value: T) {
    predicate IsFailure() {
      None?
    }

    function PropagateFailure<U>(): Option<U>
      requires None?
    {
      None
    }

    function Extract(): T
      requires Some?
    {
      value
    }
  }

  predicate IsUpper(c: char) {
    'A' <= c <= 'Z'
  }

  /** One character of strings.ToLower: ASCII capitals map to small letters,
      every other character is kept. */
  function LowerChar(c: char): (r: char)
    ensures !IsUpper(r)
    ensures IsUpper(c) ==> r as int == c as int + 32
    ensures !IsUpper(c) ==> r == c
  {
    if IsUpper(c) then (c as int + 32) as char else c
  }

  function Lower(s: string): (r: string)
    ensures |r| == |s|
    ensures forall i :: 0 <= i < |s| ==> r[i] == LowerChar(s[i])
  {
    seq(|s|, i requires 0 <= i < |s| => LowerChar(s[i]))
  }

  /** Lowering twice is lowering once. */
  lemma LowerIdempotent(s: string)
    ensures Lower(Lower(s)) == Lower(s)
  {
    var l := Lower(s);
    assert forall i :: 0 <= i < |l| ==> LowerChar(l[i]) == l[i];
  }

  /** A string without capitals is its own lowercase form. */
  lemma LowerOfLowercase(s: string)
    requires forall i :: 0 <= i < |s| ==> !IsUpper(s[i])
    ensures Lower(s) == s
  {
  }

  /** Lowering moves no character that is not a capital letter: in
      particular a '.' stays exactly where it was, and no '.' appears. */
  lemma LowerKeepsNonLetters(s: string, i: int, c: char)
    requires 0 <= i < |s| && !IsUpper(c)
    ensures Lower(s)[i] == c <==> s[i] == c || (IsUpper(s[i]) && s[i] as int + 32 == c as int)
  {
  }

  /** `sub` occurs in `s` starting at index `i`. */
  predicate OccursAt(s: string, sub: string, i: int) {
    0 <= i && i + |sub| <= |s| && s[i..i + |sub|] == sub
  }

  lemma OccursAtTail(s: string, sub: string, j: int)
    requires |s| > 0 && j >= 1
    ensures OccursAt(s, sub, j) <==> OccursAt(s[1..], sub, j - 1)
  {
    if j + |sub| <= |s| {
      assert s[1..][j - 1..j - 1 + |sub|] == s[j..j + |sub|];
    }
  }

  /** strings.Index: the index of the first occurrence of `sub` in `s`,
      or -1 when there is none (IndexOfFirst). */
  function IndexOf(s: string, sub: string): (r: int)
    ensures -1 <= r
    ensures r >= 0 ==> r + |sub| <= |s|
    decreases |s|
  {
    if |s| < |sub| then -1
    else if s[..|sub|] == sub then 0
    else
      var k := IndexOf(s[1..], sub);
      if k == -1 then -1 else k + 1
  }

  /** A found index is an occurrence of `sub` with none before it. */
  lemma {:induction false} IndexOfFound(s: string, sub: string)
    requires IndexOf(s, sub) >= 0
    ensures OccursAt(s, sub, IndexOf(s, sub))
    ensures forall j :: 0 <= j < IndexOf(s, sub) ==> !OccursAt(s, sub, j)
    decreases |s|
  {
    if s[..|sub|] == sub {
      assert OccursAt(s, sub, 0);
    } else {
      var k := IndexOf(s[1..], sub);
      assert IndexOf(s, sub) == k + 1;
      IndexOfFound(s[1..], sub);
      OccursAtTail(s, sub, k + 1);
      forall j | 1 <= j <= k ensures !OccursAt(s, sub, j) {
        OccursAtTail(s, sub, j);
      }
      assert !OccursAt(s, sub, 0);
    }
  }

  /** -1 means that `sub` occurs nowhere in `s`. */
  lemma {:induction false} IndexOfAbsent(s: string, sub: string)
    requires IndexOf(s, sub) == -1
    ensures forall j :: !OccursAt(s, sub, j)
    decreases |s|
  {
    if |sub| <= |s| {
      assert !OccursAt(s, sub, 0);
      IndexOfAbsent(s[1..], sub);
      forall j | 1 <= j <= |s| ensures !OccursAt(s, sub, j) {
        OccursAtTail(s, sub, j);
      }
    }
  }

  /** IndexOf finds an occurrence with none before it, and reports -1
      exactly when `sub` occurs nowhere in `s`. */
  lemma IndexOfFirst(s: string, sub: string)
    ensures IndexOf(s, sub) >= 0 ==> OccursAt(s, sub, IndexOf(s, sub))
    ensures forall j :: 0 <= j < IndexOf(s, sub) ==> !OccursAt(s, sub, j)
    ensures IndexOf(s, sub) == -1 ==> forall j :: !OccursAt(s, sub, j)
  {
    if IndexOf(s, sub) >= 0 {
      IndexOfFound(s, sub);
    } else {
      IndexOfAbsent(s, sub);
    }
  }

  /** The first occurrence determines strings.Index. */
  lemma IndexOfIs(s: string, sub: string, k: int)
    requires OccursAt(s, sub, k)
    requires forall j :: 0 <= j < k ==> !OccursAt(s, sub, j)
    ensures IndexOf(s, sub) == k
  {
    IndexOfFirst(s, sub);
  }

  /** An occurrence at k is the first one when the first character of `sub`
      does not appear before k. */
  lemma IndexOfAtFirstChar(s: string, sub: string, k: int)
    requires |sub| > 0 && OccursAt(s, sub, k) && sub[0] !in s[..k]
    ensures IndexOf(s, sub) == k
  {
    forall j | 0 <= j < k ensures !OccursAt(s, sub, j) {
      assert s[..k][j] == s[j];
      assert j + |sub| <= |s| ==> s[j..j + |sub|][0] == s[j];
    }
    IndexOfIs(s, sub, k);
  }

  /** strings.Index reports -1 when some character of `sub` is nowhere in
      `s`. */
  lemma IndexOfMissingChar(s: string, sub: string, i: int)
    requires 0 <= i < |sub| && sub[i] !in s
    ensures IndexOf(s, sub) == -1
  {
    IndexOfFirst(s, sub);
  }

  /** strings.Index reports -1 when `sub` occurs nowhere in `s`. */
  lemma IndexOfNone(s: string, sub: string)
    requires forall j :: 0 <= j ==> !OccursAt(s, sub, j)
    ensures IndexOf(s, sub) == -1
  {
    IndexOfFirst(s, sub);
  }

  /** A character is absent from a string exactly when strings.Index
      reports -1 for it. */
  lemma IndexOfChar(s: string, c: char)
    ensures IndexOf(s, [c]) == -1 <==> c !in s
    ensures IndexOf(s, [c]) >= 0 ==> s[IndexOf(s, [c])] == c
    ensures IndexOf(s, [c]) >= 0 ==> c !in s[..IndexOf(s, [c])]
  {
    var r := IndexOf(s, [c]);
    IndexOfFirst(s, [c]);
    if r == -1 {
      forall i | 0 <= i < |s| ensures s[i] != c {
        assert !OccursAt(s, [c], i);
        assert s[i..i + 1] == [s[i]];
      }
    } else {
      assert s[r..r + 1] == [s[r]];
      forall i | 0 <= i < r ensures s[..r][i] != c {
        assert !OccursAt(s, [c], i);
        assert s[i..i + 1] == [s[i]];
      }
    }
  }
}
