/** The string operations the deck list uses, restricted to ASCII:
    `toLowerCase`, `trim` and `includes`. */
module Text {

  predicate IsUpper(c: char) {
    'A' <= c <= 'Z'
  }

  /** JavaScript white space within ASCII: tab, line feed, vertical tab,
      form feed, carriage return and space. */
  predicate IsSpace(c: char) {
    c == ' ' || 9 <= c as int <= 13
  }

  function LowerChar(c: char): char {
    if IsUpper(c) then (c as int + 32) as char else c
  }

  /** `s.toLowerCase()` on ASCII text. */
  function Lower(s: string): (r: string)
    ensures |r| == |s|
    ensures forall i :: 0 <= i < |r| ==> !IsUpper(r[i])
    ensures forall i :: 0 <= i < |s| && !IsUpper(s[i]) ==> r[i] == s[i]
    ensures forall i :: 0 <= i < |s| && IsUpper(s[i]) ==> r[i] as int == s[i] as int - 'A' as int + 'a' as int
  {
    seq(|s|, i requires 0 <= i < |s| => LowerChar(s[i]))
  }

  function TrimStart(s: string): (r: string)
    ensures |r| <= |s| && r == s[|s| - |r|..]
    ensures r == [] || !IsSpace(r[0])
    ensures forall i :: 0 <= i < |s| - |r| ==> IsSpace(s[i])
    decreases |s|
  {
    if s != [] && IsSpace(s[0]) then
      var r := TrimStart(s[1..]);
      assert s[1..][|s| - 1 - |r|..] == s[|s| - |r|..];
      assert forall i :: 1 <= i < |s| - |r| ==> s[i] == s[1..][i - 1];
      r
    else s
  }

  function TrimEnd(s: string): (r: string)
    ensures |r| <= |s| && r == s[..|r|]
    ensures r == [] || !IsSpace(r[|r| - 1])
    ensures forall i :: |r| <= i < |s| ==> IsSpace(s[i])
    decreases |s|
  {
    if s != [] && IsSpace(s[|s| - 1]) then
      var r := TrimEnd(s[..|s| - 1]);
      assert s[..|s| - 1][..|r|] == s[..|r|];
      assert forall i :: |r| <= i < |s| - 1 ==> s[i] == s[..|s| - 1][i];
      r
    else s
  }

  /** `r` is `s` with the white space before index `i` and after
      `i + |r|` cut off. */
  predicate TrimmedAt(s: string, r: string, i: int) {
    0 <= i <= |s| - |r| && r == s[i..i + |r|]
    && (forall k :: 0 <= k < i ==> IsSpace(s[k]))
    && (forall k :: i + |r| <= k < |s| ==> IsSpace(s[k]))
  }

  /** `s.trim()`: a slice of `s` that neither starts nor ends with white
      space, with only white space cut off on either side. */
  function Trim(s: string): (r: string)
    ensures exists i :: TrimmedAt(s, r, i)
    ensures r == [] || (!IsSpace(r[0]) && !IsSpace(r[|r| - 1]))
  {
    var e := TrimEnd(s);
    TrimParts(s, e);
    TrimStart(e)
  }

  /** A slice of a prefix is a slice of the whole. */
  lemma PrefixSlice(s: string, e: string, i: nat)
    requires |e| <= |s| && e == s[..|e|] && i <= |e|
    ensures e[i..] == s[i..|e|]
    ensures forall k :: 0 <= k < i ==> e[k] == s[k]
  {
  }

  /** Trimming the end and then the start cuts only white space. */
  lemma TrimParts(s: string, e: string)
    requires e == TrimEnd(s)
    ensures var r := TrimStart(e);
      TrimmedAt(s, r, |e| - |r|) && (r == [] || (!IsSpace(r[0]) && !IsSpace(r[|r| - 1])))
  {
    var r := TrimStart(e);
    var i := |e| - |r|;
    PrefixSlice(s, e, i);
    assert r != [] ==> r[|r| - 1] == e[|e| - 1];
  }


  /** `s.includes(q)`. */
  function Contains(s: string, q: string): (r: bool)
    ensures q == [] ==> r
    ensures r ==> |q| <= |s|
    decreases |s|
  {
    q <= s || (s != [] && Contains(s[1..], q))
  }

  predicate OccursAt(s: string, q: string, i: int) {
    0 <= i <= |s| - |q| && s[i..i + |q|] == q
  }

  /** An occurrence at the start is a prefix. */
  lemma PrefixOccurs(s: string, q: string)
    ensures OccursAt(s, q, 0) ==> q <= s
  {
  }

  /** An occurrence of `q` past the first position is an occurrence in the
      tail, one position earlier. */
  lemma OccursInTail(s: string, q: string, i: int)
    requires OccursAt(s, q, i) && !(q <= s)
    ensures s != [] && OccursAt(s[1..], q, i - 1)
  {
    PrefixOccurs(s, q);
    assert s[1..][i - 1..i - 1 + |q|] == s[i..i + |q|];
  }

  /** An occurrence in the tail is an occurrence one position later. */
  lemma OccursFromTail(s: string, q: string, i: int)
    requires s != [] && OccursAt(s[1..], q, i)
    ensures OccursAt(s, q, i + 1)
  {
    assert s[i + 1..i + 1 + |q|] == s[1..][i..i + |q|];
  }

  /** `Contains` agrees with the positional definition of a substring. */
  lemma {:induction false} ContainsIffOccurs(s: string, q: string)
    ensures Contains(s, q) <==> exists i :: OccursAt(s, q, i)
    decreases |s|
  {
    if q <= s {
      assert OccursAt(s, q, 0);
    } else if s == [] {
    } else {
      ContainsIffOccurs(s[1..], q);
      forall i | OccursAt(s, q, i) ensures OccursAt(s[1..], q, i - 1) {
        OccursInTail(s, q, i);
      }
      if Contains(s[1..], q) {
        var i :| OccursAt(s[1..], q, i);
        OccursFromTail(s, q, i);
      }
    }
  }
}
