/** `load_genes`: the gene ids of a gene-list file whose lines look like
    `HGNC:123`, read with `readlines()`, stripped and split on ':'. */
module GeneList {
  import opened Wrappers

  /** Python's `str.isspace()` on one character: the characters `strip()`
      removes when it is given no argument. */
  predicate IsSpace(c: char)
  {
    || ('\t' <= c <= '\r')
    || ('\U{1C}' <= c <= '\U{1F}')
    || c == ' '
    || c == '\U{85}'
    || c == '\U{A0}'
    || c == '\U{1680}'
    || ('\U{2000}' <= c <= '\U{200A}')
    || c == '\U{2028}'
    || c == '\U{2029}'
    || c == '\U{202F}'
    || c == '\U{205F}'
    || c == '\U{3000}'
  }

  /** `s.lstrip()`. */
  function StripLeft(s: string): string
  {
    if s != [] && IsSpace(s[0]) then StripLeft(s[1..]) else s
  }

  /** `s.rstrip()`. */
  function StripRight(s: string): string
  {
    if s != [] && IsSpace(s[|s| - 1]) then StripRight(s[..|s| - 1]) else s
  }

  /** `s.strip()`. */
  function Strip(s: string): string
  {
    StripRight(StripLeft(s))
  }

  lemma {:induction false} StripLeftSpec(s: string) returns (i: nat)
    ensures i <= |s| && StripLeft(s) == s[i..]
    ensures forall k :: 0 <= k < i ==> IsSpace(s[k])
    ensures i < |s| ==> !IsSpace(s[i])
  {
    if s != [] && IsSpace(s[0]) {
      var i' := StripLeftSpec(s[1..]);
      i := i' + 1;
      assert s[1..][i'..] == s[i..];
      forall k | 0 <= k < i
        ensures IsSpace(s[k])
      {
        if k > 0 {
          assert s[k] == s[1..][k - 1];
        }
      }
    } else {
      i := 0;
    }
  }

  lemma {:induction false} StripRightSpec(s: string) returns (j: nat)
    ensures j <= |s| && StripRight(s) == s[..j]
    ensures forall k :: j <= k < |s| ==> IsSpace(s[k])
    ensures 0 < j ==> !IsSpace(s[j - 1])
  {
    if s != [] && IsSpace(s[|s| - 1]) {
      j := StripRightSpec(s[..|s| - 1]);
      assert s[..|s| - 1][..j] == s[..j];
      forall k | j <= k < |s|
        ensures IsSpace(s[k])
      {
        if k < |s| - 1 {
          assert s[k] == s[..|s| - 1][k];
        }
      }
    } else {
      j := |s|;
    }
  }

  /** The stripped line is the slice s[i..j] of the line: everything outside
      it is whitespace and it neither starts nor ends with whitespace. */
  lemma StripSpec(s: string) returns (i: nat, j: nat)
    ensures i <= j <= |s| && Strip(s) == s[i..j]
    ensures forall k :: 0 <= k < i || j <= k < |s| ==> IsSpace(s[k])
    ensures Strip(s) == [] || (!IsSpace(Strip(s)[0]) && !IsSpace(Strip(s)[|Strip(s)| - 1]))
  {
    i := StripLeftSpec(s);
    var t := s[i..];
    var j' := StripRightSpec(t);
    j := i + j';
    assert t[..j'] == s[i..j];
    forall k | j <= k < |s|
      ensures IsSpace(s[k])
    {
      assert s[k] == t[k - i];
    }
    if Strip(s) != [] {
      assert Strip(s)[0] == s[i];
    }
  }

  /** Stripping a stripped line changes nothing. */
  lemma StripIdempotent(s: string)
    ensures Strip(Strip(s)) == Strip(s)
  {
    var t := Strip(s);
    var _, _ := StripSpec(s);
    var i, j := StripSpec(t);
    if t == [] {
      assert t[i..j] == [];
    }
  }

  /** `s.split(sep)`: the pieces between the separators, at least one. */
  function Split(s: string, sep: char): (parts: seq<string>)
    ensures |parts| >= 1
  {
    if s == [] then [[]]
    else
      var rest := Split(s[1..], sep);
      if s[0] == sep then [[]] + rest else [[s[0]] + rest[0]] + rest[1..]
  }

  /** `sep.join(parts)`. */
  function Join(parts: seq<string>, sep: char): string
    requires |parts| >= 1
  {
    if |parts| == 1 then parts[0] else parts[0] + [sep] + Join(parts[1..], sep)
  }

  /** Joining the pieces with the separator gives the string back. */
  lemma {:induction false} JoinSplit(s: string, sep: char)
    ensures Join(Split(s, sep), sep) == s
  {
    if s != [] {
      JoinSplit(s[1..], sep);
      var rest := Split(s[1..], sep);
      if s[0] == sep {
        assert s == [sep] + s[1..];
      } else if |rest| == 1 {
        assert s == [s[0]] + s[1..];
      } else {
        assert rest == [rest[0]] + rest[1..];
        assert s == [s[0]] + s[1..];
      }
    }
  }

  /** No piece contains the separator, and there is more than one piece
      exactly when the separator occurs. */
  lemma {:induction false} SplitPieces(s: string, sep: char)
    ensures forall k :: 0 <= k < |Split(s, sep)| ==> sep !in Split(s, sep)[k]
    ensures |Split(s, sep)| >= 2 <==> sep in s
  {
    if s != [] {
      SplitPieces(s[1..], sep);
      var rest := Split(s[1..], sep);
      if s[0] != sep {
        var parts := Split(s, sep);
        forall k | 0 <= k < |parts|
          ensures sep !in parts[k]
        {
          if k > 0 {
            assert parts[k] == rest[k];
          }
        }
        assert sep in s <==> sep in s[1..] by {
          assert s == [s[0]] + s[1..];
        }
      }
    }
  }

  /** Splitting pieces that hold no separator, once joined, gives them back. */
  lemma {:induction false} SplitJoin(parts: seq<string>, sep: char)
    requires |parts| >= 1
    requires forall k :: 0 <= k < |parts| ==> sep !in parts[k]
    ensures Split(Join(parts, sep), sep) == parts
  {
    if |parts| == 1 {
      SplitOfPlain(parts[0], sep);
    } else {
      SplitJoin(parts[1..], sep);
      SplitConcat(parts[0], Join(parts[1..], sep), sep);
      assert parts == [parts[0]] + parts[1..];
    }
  }

  lemma {:induction false} SplitOfPlain(s: string, sep: char)
    requires sep !in s
    ensures Split(s, sep) == [s]
  {
    if s != [] {
      SplitOfPlain(s[1..], sep);
      assert s == [s[0]] + s[1..];
    }
  }

  lemma {:induction false} SplitConcat(a: string, b: string, sep: char)
    requires sep !in a
    ensures Split(a + [sep] + b, sep) == [a] + Split(b, sep)
  {
    if a == [] {
      assert ([sep] + b)[1..] == b;
    } else {
      SplitConcat(a[1..], b, sep);
      assert (a + [sep] + b)[1..] == a[1..] + [sep] + b;
      assert a == [a[0]] + a[1..];
    }
  }

  /** `s.split(':')[1]`, which raises IndexError when s has no ':'. */
  function SecondField(s: string): Result<string>
  {
    var parts := Split(s, ':');
    if |parts| < 2 then Failure(IndexError) else Success(parts[1])
  }

  /** The field is there exactly when s has a ':', and then it is what lies
      between the first ':' and the next one (or the end of s). */
  lemma SecondFieldSpec(s: string) returns (pre: string, rest: string)
    ensures SecondField(s).Success? <==> ':' in s
    ensures SecondField(s).Failure? ==> SecondField(s).error == IndexError
    ensures SecondField(s).Success? ==>
      && s == pre + [':'] + SecondField(s).value + rest
      && ':' !in pre && ':' !in SecondField(s).value
      && (rest == [] || rest[0] == ':')
  {
    var parts := Split(s, ':');
    SplitPieces(s, ':');
    JoinSplit(s, ':');
    pre, rest := [], [];
    if |parts| >= 2 {
      pre := parts[0];
      var tail := parts[1..];
      assert Join(tail, ':') == s[|pre| + 1..] by {
        assert s == pre + [':'] + Join(tail, ':');
      }
      if |tail| > 1 {
        rest := [':'] + Join(tail[1..], ':');
        assert Join(tail, ':') == tail[0] + rest;
      }
      assert s == pre + [':'] + parts[1] + rest;
    }
  }

  /** `[l.strip().split(':')[1] for l in lines]`: the comprehension stops at
      the first line without a ':'. */
  function LoadGenes(lines: seq<string>): (r: Result<seq<string>>)
    ensures r.Success? ==> |r.value| == |lines|
  {
    if lines == [] then Success([])
    else
      var gene :- SecondField(Strip(lines[0]));
      var genes :- LoadGenes(lines[1..]);
      Success([gene] + genes)
  }

  /** The list loads exactly when every stripped line has a ':', and then it
      holds one id per line, in order; otherwise it raises IndexError. */
  lemma LoadGenesSpec(lines: seq<string>)
    ensures LoadGenes(lines).Success? <==> forall k :: 0 <= k < |lines| ==> ':' in Strip(lines[k])
    ensures LoadGenes(lines).Failure? ==> LoadGenes(lines).error == IndexError
    ensures LoadGenes(lines).Success? ==>
      forall k :: 0 <= k < |lines| ==> Success(LoadGenes(lines).value[k]) == SecondField(Strip(lines[k]))
  {
    LoadGenesOutcome(lines);
    if LoadGenes(lines).Success? {
      LoadGenesValues(lines);
    }
  }

  /** When the list loads and when it raises IndexError. */
  lemma {:induction false} LoadGenesOutcome(lines: seq<string>)
    ensures LoadGenes(lines).Success? <==> forall k :: 0 <= k < |lines| ==> ':' in Strip(lines[k])
    ensures LoadGenes(lines).Failure? ==> LoadGenes(lines).error == IndexError
  {
    if lines != [] {
      var tail := lines[1..];
      LoadGenesOutcome(tail);
      var _, _ := SecondFieldSpec(Strip(lines[0]));
      if forall k :: 0 <= k < |lines| ==> ':' in Strip(lines[k]) {
        assert ':' in Strip(lines[0]);
        forall k | 0 <= k < |tail|
          ensures ':' in Strip(tail[k])
        {
          assert tail[k] == lines[k + 1];
        }
      } else {
        var k :| 0 <= k < |lines| && ':' !in Strip(lines[k]);
        if k > 0 {
          assert tail[k - 1] == lines[k];
        }
      }
    }
  }

  /** A loaded list holds each line's second field, in order. */
  lemma {:induction false} LoadGenesValues(lines: seq<string>)
    requires LoadGenes(lines).Success?
    ensures forall k :: 0 <= k < |lines| ==> Success(LoadGenes(lines).value[k]) == SecondField(Strip(lines[k]))
  {
    if lines != [] {
      var tail := lines[1..];
      var first := SecondField(Strip(lines[0]));
      LoadGenesValues(tail);
      var genes := LoadGenes(lines).value;
      assert genes == [first.value] + LoadGenes(tail).value;
      forall k | 0 <= k < |lines|
        ensures Success(genes[k]) == SecondField(Strip(lines[k]))
      {
        if k > 0 {
          assert genes[k] == LoadGenes(tail).value[k - 1] && tail[k - 1] == lines[k];
        }
      }
    }
  }
}
