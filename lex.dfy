/** Python's ordering of `str` values (code point by code point, a proper
    prefix first), and the order it induces on tuples of strings. */
module Lex {

  /** a < b in Python. */
  predicate Less(a: string, b: string)
  {
    if a == [] then b != []
    else if b == [] then false
    else if a[0] < b[0] then true
    else if a[0] == b[0] then Less(a[1..], b[1..])
    else false
  }

  /** a <= b in Python. */
  predicate LessEq(a: string, b: string)
  {
    a == b || Less(a, b)
  }

  lemma {:induction false} LessIrreflexive(a: string)
    ensures !Less(a, a)
  {
    if a != [] {
      LessIrreflexive(a[1..]);
    }
  }

  lemma {:induction false} LessTransitive(a: string, b: string, c: string)
    requires Less(a, b) && Less(b, c)
    ensures Less(a, c)
  {
    if a != [] && b != [] && c != [] && a[0] == b[0] == c[0] {
      LessTransitive(a[1..], b[1..], c[1..]);
    }
  }

  /** Any two different strings are ordered one way round. */
  lemma {:induction false} LessTotal(a: string, b: string)
    ensures a == b || Less(a, b) || Less(b, a)
  {
    if a != [] && b != [] && a[0] == b[0] {
      LessTotal(a[1..], b[1..]);
      if a[1..] == b[1..] {
        assert a == [a[0]] + a[1..] && b == [b[0]] + b[1..];
      }
    }
  }

  lemma LessAsymmetric(a: string, b: string)
    requires Less(a, b)
    ensures !Less(b, a)
  {
    if Less(b, a) {
      LessTransitive(a, b, a);
      LessIrreflexive(a);
    }
  }

  /** Lexicographic order on equal-length tuples of strings (group-by keys). */
  predicate TupleLess(a: seq<string>, b: seq<string>)
    requires |a| == |b|
  {
    if a == [] then false
    else if Less(a[0], b[0]) then true
    else if a[0] == b[0] then TupleLess(a[1..], b[1..])
    else false
  }

  lemma {:induction false} TupleLessIrreflexive(a: seq<string>)
    ensures !TupleLess(a, a)
  {
    if a != [] {
      LessIrreflexive(a[0]);
      TupleLessIrreflexive(a[1..]);
    }
  }

  lemma {:induction false} TupleLessTransitive(a: seq<string>, b: seq<string>, c: seq<string>)
    requires |a| == |b| == |c|
    requires TupleLess(a, b) && TupleLess(b, c)
    ensures TupleLess(a, c)
  {
    if Less(a[0], b[0]) && Less(b[0], c[0]) {
      LessTransitive(a[0], b[0], c[0]);
    } else if a[0] == b[0] && b[0] == c[0] {
      TupleLessTransitive(a[1..], b[1..], c[1..]);
    }
  }

  lemma {:induction false} TupleLessTotal(a: seq<string>, b: seq<string>)
    requires |a| == |b|
    ensures a == b || TupleLess(a, b) || TupleLess(b, a)
  {
    if a != [] {
      LessTotal(a[0], b[0]);
      if a[0] == b[0] {
        TupleLessTotal(a[1..], b[1..]);
        if a[1..] == b[1..] {
          assert a == [a[0]] + a[1..] && b == [b[0]] + b[1..];
        }
      }
    }
  }
}
