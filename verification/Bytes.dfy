/** Byte strings and the few C string operations that every stage uses. */
module ByteStrings {
  // A byte is a C `char`. Only codes 0..255 occur in the program; nothing but percent-coding and MD5
  // looks at the numeric value, and those two say so.
  type Bytes = string

  datatype Option<+T> = None | Some(value: T) {
    function GetOr(default: T): T {
      if None? then default else value
    }
  }

  // Sequence laws, stated so that proofs about long concatenations can name the one they need.
  lemma Assoc<T>(a: seq<T>, b: seq<T>, c: seq<T>)
    ensures a + b + c == a + (b + c)
  {
  }

  lemma ConsConcat<T>(a: seq<T>, b: seq<T>)
    requires a != []
    ensures a + b != [] && (a + b)[0] == a[0] && (a + b)[1..] == a[1..] + b
  {
  }

  lemma SplitAt<T>(s: seq<T>, i: nat)
    requires i <= |s|
    ensures s[..i] + s[i..] == s
  {
  }

  lemma SplitRange<T>(s: seq<T>, i: nat, j: nat)
    requires i <= j <= |s|
    ensures s[..j] == s[..i] + s[i..j]
  {
  }

  lemma RangeOfConcat<T>(s: seq<T>, k: nat, a: seq<T>, b: seq<T>)
    requires k + |a| + |b| <= |s| && s[k..k + |a| + |b|] == a + b
    ensures s[k..k + |a|] == a && s[k + |a|..k + |a| + |b|] == b
  {
    var t := s[k..k + |a| + |b|];
    assert t[..|a|] == a && t[|a|..] == b;
  }

  lemma EmptyConcat<T>(s: seq<T>)
    ensures s + [] == s && [] + s == s
  {
  }

  /** The bytes of a sequence of pieces, in order. */
  function Flatten(pieces: seq<Bytes>): Bytes {
    if pieces == [] then [] else pieces[0] + Flatten(pieces[1..])
  }

  lemma {:induction false} FlattenConcat(a: seq<Bytes>, b: seq<Bytes>)
    ensures Flatten(a + b) == Flatten(a) + Flatten(b)
  {
    if a == [] {
      assert a + b == b;
    } else {
      assert (a + b)[1..] == a[1..] + b;
      FlattenConcat(a[1..], b);
      Assoc(a[0], Flatten(a[1..]), Flatten(b));
    }
  }

  lemma FlattenSnoc(a: seq<Bytes>, d: Bytes)
    ensures Flatten(a + [d]) == Flatten(a) + d
  {
    FlattenConcat(a, [d]);
    assert [d][1..] == [];
  }

  /** memchr: the first index of `c` in `s` at or after `from`, or `|s|`. */
  function IndexFrom(s: Bytes, c: char, from: nat): (i: nat)
    requires from <= |s|
    ensures from <= i <= |s|
    ensures forall j :: from <= j < i ==> s[j] != c
    ensures i < |s| ==> s[i] == c
    decreases |s| - from
  {
    if from == |s| || s[from] == c then from else IndexFrom(s, c, from + 1)
  }

  function Index(s: Bytes, c: char): (i: nat)
    ensures i <= |s|
    ensures forall j :: 0 <= j < i ==> s[j] != c
    ensures i < |s| ==> s[i] == c
  {
    IndexFrom(s, c, 0)
  }

  /** The C string stored at the start of a buffer: everything before the first NUL. */
  function CStr(s: Bytes): (r: Bytes)
    ensures '\0' !in r && r <= s
    ensures '\0' !in s ==> r == s
  {
    s[..Index(s, '\0')]
  }

  predicate NulFree(s: Bytes) {
    '\0' !in s
  }

  /** ASCII lower case, as used by strcasecmp in the C locale. */
  function Lower(c: char): char {
    if 'A' <= c <= 'Z' then (c as int + 32) as char else c
  }

  predicate EqualIgnoreCase(a: Bytes, b: Bytes) {
    |a| == |b| && forall i :: 0 <= i < |a| ==> Lower(a[i]) == Lower(b[i])
  }

  predicate IsBlank(c: char) {
    c == ' ' || c == '\t'
  }

  /** s + strspn(s, " \t") */
  function SkipBlanks(s: Bytes): Bytes {
    if s != [] && IsBlank(s[0]) then SkipBlanks(s[1..]) else s
  }


  /** The same letter, perhaps in different case. */
  predicate SameLetter(a: char, b: char) {
    a == b || exists i: nat :: i < 26 && IsLetter(a, i) && IsLetter(b, i)
  }

  /** Letter i of the alphabet, in either case. */
  predicate IsLetter(c: char, i: nat) {
    i < 26 && (c == "ABCDEFGHIJKLMNOPQRSTUVWXYZ"[i] || c == "abcdefghijklmnopqrstuvwxyz"[i])
  }

  lemma LetterAt(i: nat)
    requires i < 26
    ensures "ABCDEFGHIJKLMNOPQRSTUVWXYZ"[i] as int == 'A' as int + i
    ensures "abcdefghijklmnopqrstuvwxyz"[i] as int == 'a' as int + i
  {
    assert i == 0 || i == 1 || i == 2 || i == 3 || i == 4 || i == 5 || i == 6 || i == 7 || i == 8
        || i == 9 || i == 10 || i == 11 || i == 12 || i == 13 || i == 14 || i == 15 || i == 16 || i == 17
        || i == 18 || i == 19 || i == 20 || i == 21 || i == 22 || i == 23 || i == 24 || i == 25;
  }

  lemma LetterIff(a: char, b: char)
    ensures Lower(a) == Lower(b) <==> SameLetter(a, b)
  {
    forall i: nat | i < 26 && IsLetter(a, i) && IsLetter(b, i) ensures Lower(a) == Lower(b) {
      LetterAt(i);
    }
    if Lower(a) == Lower(b) && a != b {
      var i := Lower(a) as int - 'a' as int;
      LetterAt(i);
      assert IsLetter(a, i) && IsLetter(b, i);
    }
  }

  /** Names are compared letter by letter, and only letters may differ in case. */
  lemma CaseIgnored(a: Bytes, b: Bytes)
    ensures EqualIgnoreCase(a, b) <==> |a| == |b| && forall i :: 0 <= i < |a| ==> SameLetter(a[i], b[i])
  {
    hide SameLetter;
    forall i | 0 <= i < |a| && |a| == |b| ensures Lower(a[i]) == Lower(b[i]) <==> SameLetter(a[i], b[i]) {
      LetterIff(a[i], b[i]);
    }
  }


  /** The same name, whatever the case of its letters. */
  predicate SameName(a: Bytes, b: Bytes) {
    |a| == |b| && forall i :: 0 <= i < |a| ==> SameLetter(a[i], b[i])
  }
}
