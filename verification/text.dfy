/** Text operations on cell values and column names: ASCII lowercasing,
    column-name normalisation, prefix and substring tests, and Python's
    code-point order on strings. */
module Text {

  predicate IsUpper(c: char) {
    'A' <= c <= 'Z'
  }

  /** `str.lower` restricted to ASCII: 'A'..'Z' move to 'a'..'z', everything else stays. */
  function LowerChar(c: char): (d: char)
    ensures !IsUpper(d)
    ensures IsUpper(c) ==> d as int == c as int + 32
    ensures !IsUpper(c) ==> d == c
  {
    if IsUpper(c) then (c as int - 'A' as int + 'a' as int) as char else c
  }

  /** Lowercases every character of `s`. */
  function Lower(s: string): (r: string)
    ensures |r| == |s|
    ensures forall i :: 0 <= i < |r| ==> r[i] == LowerChar(s[i]) && !IsUpper(r[i])
  {
    if s == [] then [] else [LowerChar(s[0])] + Lower(s[1..])
  }

  /** The column-name formatter of `load_data`: lowercase, then every ' ' becomes '_'. */
  function NormaliseName(s: string): (r: string)
    ensures |r| == |s|
    ensures forall i :: 0 <= i < |r| ==> r[i] != ' ' && !IsUpper(r[i])
    ensures forall i :: 0 <= i < |r| ==> r[i] == (if s[i] == ' ' then '_' else LowerChar(s[i]))
  {
    if s == [] then [] else [if s[0] == ' ' then '_' else LowerChar(s[0])] + NormaliseName(s[1..])
  }

  /** Applying the formatter to an already formatted name changes nothing. */
  lemma {:induction false} NormaliseNameIdempotent(s: string)
    ensures NormaliseName(NormaliseName(s)) == NormaliseName(s)
  {
    var once := NormaliseName(s);
    var twice := NormaliseName(once);
    forall i | 0 <= i < |s|
      ensures twice[i] == once[i]
    {
      assert once[i] != ' ' && !IsUpper(once[i]);
    }
  }

  /** Renames every column of a header. */
  function NormaliseHeader(header: seq<string>): (r: seq<string>)
    ensures |r| == |header|
    ensures forall i :: 0 <= i < |r| ==> r[i] == NormaliseName(header[i])
  {
    if header == [] then [] else [NormaliseName(header[0])] + NormaliseHeader(header[1..])
  }

  /** A normalised header has no space and no upper-case letter in any name,
      and normalising it again leaves it as it is. */
  lemma {:induction false} NormaliseHeaderSpec(header: seq<string>)
    ensures forall i, k :: 0 <= i < |header| && 0 <= k < |NormaliseHeader(header)[i]| ==>
      NormaliseHeader(header)[i][k] != ' ' && !IsUpper(NormaliseHeader(header)[i][k])
    ensures NormaliseHeader(NormaliseHeader(header)) == NormaliseHeader(header)
  {
    var once := NormaliseHeader(header);
    forall i | 0 <= i < |header|
      ensures NormaliseHeader(once)[i] == once[i]
    {
      NormaliseNameIdempotent(header[i]);
    }
  }

  /** `s.startswith(p)`. */
  predicate IsPrefix(p: string, s: string)
    ensures IsPrefix(p, s) <==> OccursAt(p, s, 0)
    ensures p == [] ==> IsPrefix(p, s)
  {
    |p| <= |s| && s[..|p|] == p
  }

  /** `p in s` for strings: `p` occurs as a contiguous piece of `s`. */
  predicate IsInfix(p: string, s: string)
    ensures IsPrefix(p, s) ==> IsInfix(p, s)
    ensures IsInfix(p, s) ==> |p| <= |s|
    decreases |s|
  {
    IsPrefix(p, s) || (|s| > 0 && IsInfix(p, s[1..]))
  }

  /** `p` occurs in `s` starting at position `i`. */
  predicate OccursAt(p: string, s: string, i: int) {
    0 <= i <= |s| - |p| && s[i..i + |p|] == p
  }

  /** The recursive substring test agrees with "there is a position where `p` starts". */
  lemma {:induction false} IsInfixAt(p: string, s: string)
    ensures IsInfix(p, s) <==> exists i :: OccursAt(p, s, i)
    decreases |s|
  {
    if IsPrefix(p, s) {
      assert OccursAt(p, s, 0);
    } else if |s| > 0 {
      IsInfixAt(p, s[1..]);
      if IsInfix(p, s[1..]) {
        var i :| OccursAt(p, s[1..], i);
        assert s[i + 1..i + 1 + |p|] == s[1..][i..i + |p|];
        assert OccursAt(p, s, i + 1);
      } else {
        forall i | 0 <= i <= |s| - |p|
          ensures !OccursAt(p, s, i)
        {
          if i == 0 {
            assert s[..|p|] == s[0..0 + |p|];
          } else {
            var t := s[1..];
            var u, v := t[i - 1..i - 1 + |p|], s[i..i + |p|];
            assert forall k :: 0 <= k < |p| ==> u[k] == v[k];
            assert t[i - 1..i - 1 + |p|] == s[i..i + |p|];
            assert !OccursAt(p, t, i - 1);
          }
        }
      }
    }
  }

  /** Python's `<=` on `str`: code-point lexicographic order, a proper prefix first. */
  predicate StrLe(a: string, b: string)
    decreases |a|
  {
    if |a| == 0 then true
    else if |b| == 0 then false
    else if a[0] != b[0] then a[0] < b[0]
    else StrLe(a[1..], b[1..])
  }

  predicate StrLt(a: string, b: string) {
    StrLe(a, b) && a != b
  }

  lemma {:induction false} StrLeRefl(a: string)
    ensures StrLe(a, a)
    decreases |a|
  {
    if |a| > 0 {
      StrLeRefl(a[1..]);
    }
  }

  lemma {:induction false} StrLeTotal(a: string, b: string)
    ensures StrLe(a, b) || StrLe(b, a)
    decreases |a|
  {
    if |a| > 0 && |b| > 0 && a[0] == b[0] {
      StrLeTotal(a[1..], b[1..]);
    }
  }

  lemma {:induction false} StrLeAntisym(a: string, b: string)
    requires StrLe(a, b) && StrLe(b, a)
    ensures a == b
    decreases |a|
  {
    if |a| > 0 && |b| > 0 {
      StrLeAntisym(a[1..], b[1..]);
      assert a == [a[0]] + a[1..] && b == [b[0]] + b[1..];
    }
  }

  lemma {:induction false} StrLeTrans(a: string, b: string, c: string)
    requires StrLe(a, b) && StrLe(b, c)
    ensures StrLe(a, c)
    decreases |a|
  {
    if |a| > 0 && |b| > 0 && |c| > 0 && a[0] == b[0] && b[0] == c[0] {
      StrLeTrans(a[1..], b[1..], c[1..]);
    }
  }
}
