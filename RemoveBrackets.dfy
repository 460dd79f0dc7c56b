/** The "remove brackets" layout formatter of the reference manager: it
    copies a field text, dropping every `{` and `}` and keeping every other
    character, in order.  `Format` is the formatter's loop; `Filter` is the
    specification it is proved against, and the lemmas state what `Filter`
    guarantees. */
module RemoveBrackets {

  /** The two characters the formatter drops. */
  predicate IsBrace(c: char) {
    c == '{' || c == '}'
  }

  /** No character of `s` is a brace. */
  predicate NoBraces(s: string) {
    forall i :: 0 <= i < |s| ==> !IsBrace(s[i])
  }

  /** `s` with every brace removed and all other characters kept in order. */
  function Filter(s: string): string {
    if s == [] then []
    else (if IsBrace(s[0]) then [] else [s[0]]) + Filter(s[1..])
  }

  /** Number of occurrences of `{` and `}` in `s`. */
  function BraceCount(s: string): nat {
    if s == [] then 0
    else (if IsBrace(s[0]) then 1 else 0) + BraceCount(s[1..])
  }

  /** `t` is obtained from `s` by deleting some of its characters. */
  predicate IsSubsequence(t: string, s: string)
    decreases |s|
  {
    if t == [] then true
    else if s == [] then false
    else (t[0] == s[0] && IsSubsequence(t[1..], s[1..])) || IsSubsequence(t, s[1..])
  }

  /** Every character other than a brace occurs in `t` exactly as often as in `s`. */
  predicate KeepsOtherCharacters(t: string, s: string) {
    forall c :: !IsBrace(c) ==> multiset(t)[c] == multiset(s)[c]
  }

  /** `format(fieldText)`: a builder is filled by one pass over the
      characters, appending each one that is neither `{` nor `}`. */
  method Format(fieldText: string) returns (r: string)
    ensures r == Filter(fieldText)
  {
    var builder: string := [];
    for i := 0 to |fieldText|
      invariant builder == Filter(fieldText[..i])
    {
      var c := fieldText[i];
      if c != '{' && c != '}' {
        builder := builder + [c];
      }
      assert fieldText[..i + 1] == fieldText[..i] + [c];
      FilterAppend(fieldText[..i], [c]);
    }
    assert fieldText[..|fieldText|] == fieldText;
    r := builder;
  }

  /** Filtering works character by character, so it distributes over concatenation. */
  lemma {:induction false} FilterAppend(a: string, b: string)
    ensures Filter(a + b) == Filter(a) + Filter(b)
  {
    if a == [] {
      assert a + b == b;
    } else {
      assert (a + b)[1..] == a[1..] + b;
      FilterAppend(a[1..], b);
    }
  }

  /** The output contains neither `{` nor `}`. */
  lemma {:induction false} FilterHasNoBraces(s: string)
    ensures NoBraces(Filter(s))
  {
    if s != [] {
      FilterHasNoBraces(s[1..]);
    }
  }

  /** The output is as long as the input minus its braces, never longer. */
  lemma {:induction false} FilterLength(s: string)
    ensures |Filter(s)| == |s| - BraceCount(s)
    ensures |Filter(s)| <= |s|
  {
    if s != [] {
      FilterLength(s[1..]);
    }
  }

  /** An input is returned unchanged exactly when it holds no brace. */
  lemma {:induction false} FilterUnchangedIff(s: string)
    ensures Filter(s) == s <==> NoBraces(s)
  {
    FilterHasNoBraces(s);
    if NoBraces(s) {
      FilterKeepsBraceFree(s);
    }
  }

  lemma {:induction false} FilterKeepsBraceFree(s: string)
    requires NoBraces(s)
    ensures Filter(s) == s
  {
    if s != [] {
      assert !IsBrace(s[0]);
      FilterKeepsBraceFree(s[1..]);
    }
  }

  /** Formatting an already formatted text changes nothing. */
  lemma {:induction false} FilterIdempotent(s: string)
    ensures Filter(Filter(s)) == Filter(s)
  {
    FilterHasNoBraces(s);
    FilterKeepsBraceFree(Filter(s));
  }

  /** The output keeps the input's characters in their original relative order. */
  lemma {:induction false} FilterIsSubsequence(s: string)
    ensures IsSubsequence(Filter(s), s)
  {
    if s != [] {
      FilterIsSubsequence(s[1..]);
      if IsBrace(s[0]) {
        assert Filter(s) == Filter(s[1..]);
        assert IsSubsequence(Filter(s[1..]), s);
      } else {
        var r := Filter(s);
        assert r[0] == s[0] && r[1..] == Filter(s[1..]);
      }
    }
  }

  /** Every non-brace character occurs in the output once per occurrence in the input. */
  lemma {:induction false} FilterCounts(s: string)
    ensures forall c :: multiset(Filter(s))[c] == if IsBrace(c) then 0 else multiset(s)[c]
  {
    if s != [] {
      FilterCounts(s[1..]);
      assert s == [s[0]] + s[1..];
      assert multiset(s) == multiset([s[0]]) + multiset(s[1..]);
      var head := if IsBrace(s[0]) then [] else [s[0]];
      assert multiset(Filter(s)) == multiset(head) + multiset(Filter(s[1..]));
    }
  }

  /** Deleting characters never adds occurrences. */
  lemma {:induction false} SubsequenceMultiset(t: string, s: string)
    requires IsSubsequence(t, s)
    ensures multiset(t) <= multiset(s)
    decreases |s|
  {
    if t != [] {
      assert s == [s[0]] + s[1..];
      if t[0] == s[0] && IsSubsequence(t[1..], s[1..]) {
        SubsequenceMultiset(t[1..], s[1..]);
        assert t == [t[0]] + t[1..];
      } else {
        SubsequenceMultiset(t, s[1..]);
      }
    }
  }

  /** The properties above pin the output down: a brace-free subsequence of
      the input that keeps every other character is the filtered text. */
  lemma {:induction false} FilterUnique(t: string, s: string)
    requires IsSubsequence(t, s) && NoBraces(t) && KeepsOtherCharacters(t, s)
    ensures t == Filter(s)
    decreases |s|
  {
    if s == [] {
      assert t == [];
    } else {
      var c := s[0];
      assert s == [c] + s[1..];
      assert multiset(s) == multiset([c]) + multiset(s[1..]);
      if t != [] && t[0] == c && IsSubsequence(t[1..], s[1..]) {
        assert t == [c] + t[1..];
        assert multiset(t) == multiset([c]) + multiset(t[1..]);
        assert !IsBrace(c) by { assert t[0] == c; }
        forall d | !IsBrace(d)
          ensures multiset(t[1..])[d] == multiset(s[1..])[d]
        {
          assert multiset(t)[d] == multiset(s)[d];
        }
        FilterUnique(t[1..], s[1..]);
      } else {
        assert IsSubsequence(t, s[1..]);
        if IsBrace(c) {
          forall d | !IsBrace(d)
            ensures multiset(t)[d] == multiset(s[1..])[d]
          {
            assert multiset(t)[d] == multiset(s)[d];
          }
          FilterUnique(t, s[1..]);
        } else {
          SubsequenceMultiset(t, s[1..]);
          assert false;
        }
      }
    }
  }

  /** Both directions: `t` is the filtered text of `s` exactly when it is a
      brace-free subsequence of `s` keeping all of its other characters. */
  lemma FilterCharacterized(t: string, s: string)
    ensures t == Filter(s) <==> IsSubsequence(t, s) && NoBraces(t) && KeepsOtherCharacters(t, s)
  {
    FilterIsSubsequence(s);
    FilterHasNoBraces(s);
    FilterCounts(s);
    if IsSubsequence(t, s) && NoBraces(t) && KeepsOtherCharacters(t, s) {
      FilterUnique(t, s);
    }
  }

  /** A brace-free text wrapped in one pair of braces loses exactly that pair. */
  lemma {:induction false} FilterUnwraps(name: string)
    requires NoBraces(name)
    ensures Filter(['{'] + name + ['}']) == name
  {
    FilterAppend(['{'] + name, ['}']);
    FilterAppend(['{'], name);
    FilterKeepsBraceFree(name);
  }

  /** The example of the formatter's documentation. */
  lemma DocumentedExample()
    ensures Filter("{Stefan Kolb}") == "Stefan Kolb"
  {
    var name := "Stefan Kolb";
    assert NoBraces(name);
    FilterUnwraps(name);
    assert "{Stefan Kolb}" == ['{'] + name + ['}'];
  }
}
