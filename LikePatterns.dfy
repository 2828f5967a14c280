/** SQL `UPPER` on ASCII letters and the SQL `LIKE` matcher with its two wildcards, as the user
    query applies them (repositories/UserRepository.java). */
module LikePatterns {

  function UpperChar(c: char): char {
    if 'a' <= c <= 'z' then (c as int - 32) as char else c
  }

  /** `UPPER(s)`: ASCII letters upper-cased, every other character kept. */
  function Upper(s: string): (r: string)
    ensures |r| == |s|
    ensures forall i :: 0 <= i < |s| ==> r[i] == UpperChar(s[i])
  {
    if s == [] then [] else [UpperChar(s[0])] + Upper(s[1..])
  }

  predicate IsWildcard(c: char) {
    c == '%' || c == '_'
  }

  /** A pattern without `%` or `_`. */
  predicate IsLiteral(p: string) {
    forall i :: 0 <= i < |p| ==> !IsWildcard(p[i])
  }

  /** `s LIKE p`: `%` matches any run of characters (possibly none), `_` exactly one character,
      and every other character itself. */
  function Like(s: string, p: string): bool
    decreases |s| + |p|
  {
    if p == [] then s == []
    else if p[0] == '%' then Like(s, p[1..]) || (s != [] && Like(s[1..], p))
    else if p[0] == '_' then s != [] && Like(s[1..], p[1..])
    else s != [] && s[0] == p[0] && Like(s[1..], p[1..])
  }

  /** Without wildcards, LIKE is plain equality. */
  lemma {:induction false} LikeLiteralIsEquality(s: string, p: string)
    requires IsLiteral(p)
    ensures Like(s, p) <==> s == p
    decreases |p|
  {
    if p != [] {
      assert IsLiteral(p[1..]) by {
        forall i | 0 <= i < |p[1..]| ensures !IsWildcard(p[1..][i]) {
          assert p[1..][i] == p[i + 1];
        }
      }
      if s != [] {
        LikeLiteralIsEquality(s[1..], p[1..]);
        assert s == p <==> s[0] == p[0] && s[1..] == p[1..] by {
          if s[0] == p[0] && s[1..] == p[1..] {
            assert s == [s[0]] + s[1..] && p == [p[0]] + p[1..];
          }
        }
      }
    }
  }

  /** A lone `%` matches every string. */
  lemma {:induction false} PercentMatchesEverything(s: string)
    ensures Like(s, "%")
    decreases |s|
  {
    assert "%"[1..] == [];
    if s != [] {
      PercentMatchesEverything(s[1..]);
    }
  }

  /** Upper-casing never introduces a wildcard. */
  lemma UpperKeepsLiteral(p: string)
    requires IsLiteral(p)
    ensures IsLiteral(Upper(p))
  {
  }

  /** `UPPER(s) LIKE UPPER(p)`. */
  predicate LikeIgnoreCase(s: string, p: string) {
    Like(Upper(s), Upper(p))
  }

  /** Without wildcards the case-insensitive LIKE is equality up to ASCII case. */
  lemma LikeIgnoreCaseLiteral(s: string, p: string)
    requires IsLiteral(p)
    ensures LikeIgnoreCase(s, p) <==> Upper(s) == Upper(p)
  {
    UpperKeepsLiteral(p);
    LikeLiteralIsEquality(Upper(s), Upper(p));
  }

  /** The match ignores case: changing the case of letters on either side does not change it. */
  lemma {:induction false} UpperIsIdempotent(s: string)
    ensures Upper(Upper(s)) == Upper(s)
  {
    forall i | 0 <= i < |s| ensures Upper(Upper(s))[i] == Upper(s)[i] {
    }
  }

  lemma LikeIgnoreCaseIgnoresCase(s: string, p: string)
    ensures LikeIgnoreCase(Upper(s), p) == LikeIgnoreCase(s, p)
    ensures LikeIgnoreCase(s, Upper(p)) == LikeIgnoreCase(s, p)
  {
    UpperIsIdempotent(s);
    UpperIsIdempotent(p);
  }
}
