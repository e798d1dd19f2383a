/**
 The `removeWhitespace` method that the script installs on `String.prototype`:
 a left-to-right filter that keeps every character except space, tab, line
 feed and carriage return, in their original order. A Dafny `char` is a Unicode scalar value, so
 a surrogate pair of the JavaScript string is one character here; the filter
 keeps it whole, as it keeps both of its code units. Only the four characters
 above are dropped, so no other Unicode whitespace is touched.
 */
module Whitespace {

  /** The four characters the filter drops, and no others. */
  predicate IsStripped(c: char) {
    c == ' ' || c == '\t' || c == '\n' || c == '\r'
  }

  /** `s` contains none of the four dropped characters. */
  predicate NoStripped(s: string) {
    forall i :: 0 <= i < |s| ==> !IsStripped(s[i])
  }

  /** `sub` can be obtained from `s` by deleting characters (order is kept). */
  predicate IsSubsequence(sub: string, s: string)
    decreases |s|
  {
    if |sub| == 0 then true
    else if |s| == 0 then false
    else (sub[0] == s[0] && IsSubsequence(sub[1..], s[1..])) || IsSubsequence(sub, s[1..])
  }

  /** How many characters of `s` are not among the four dropped ones. */
  function KeptCount(s: string): nat {
    if |s| == 0 then 0
    else (if IsStripped(s[0]) then 0 else 1) + KeptCount(s[1..])
  }

  /** Reference definition of the filter: the non-dropped characters of `s`, in order. */
  function Filter(s: string): (r: string)
    ensures NoStripped(r)
    ensures |r| <= |s|
  {
    if |s| == 0 then ""
    else if IsStripped(s[0]) then Filter(s[1..])
    else [s[0]] + Filter(s[1..])
  }

  /** The filter's result is a subsequence of its input holding every kept character. */
  lemma {:induction false} FilterKeepsOrder(s: string)
    ensures IsSubsequence(Filter(s), s)
    ensures |Filter(s)| == KeptCount(s)
    decreases |s|
  {
    if |s| > 0 {
      FilterKeepsOrder(s[1..]);
      if !IsStripped(s[0]) {
        assert Filter(s)[1..] == Filter(s[1..]);
      }
    }
  }

  /** A subsequence free of dropped characters has at most as many characters as the filter keeps. */
  lemma {:induction false} SubsequenceBound(r: string, s: string)
    requires IsSubsequence(r, s) && NoStripped(r)
    ensures |r| <= KeptCount(s)
    decreases |s|
  {
    if |r| == 0 {
    } else if r[0] == s[0] && IsSubsequence(r[1..], s[1..]) {
      assert !IsStripped(r[0]);
      SubsequenceBound(r[1..], s[1..]);
    } else {
      SubsequenceBound(r, s[1..]);
    }
  }

  /**
   The filter's result is characterised without reference to how it is built:
   it is the one subsequence of `s` that contains no dropped character and
   has as many characters as `s` has kept ones.
   */
  lemma {:induction false} FilterCharacterization(s: string, r: string)
    ensures r == Filter(s) <==> (IsSubsequence(r, s) && NoStripped(r) && |r| == KeptCount(s))
    decreases |s|
  {
    FilterKeepsOrder(s);
    if IsSubsequence(r, s) && NoStripped(r) && |r| == KeptCount(s) {
      if |r| == 0 {
      } else {
        var x, t := s[0], s[1..];
        if IsStripped(x) {
          assert r[0] != x by { assert !IsStripped(r[0]); }
          FilterCharacterization(t, r);
        } else if IsSubsequence(r, t) {
          SubsequenceBound(r, t);
          assert false;
        } else {
          FilterCharacterization(t, r[1..]);
          assert r == [x] + r[1..];
        }
      }
    }
  }

  /** Each kept character occurs in the result exactly as often as in the input; dropped ones never occur. */
  lemma {:induction false} FilterCounts(s: string, c: char)
    ensures multiset(Filter(s))[c] == if IsStripped(c) then 0 else multiset(s)[c]
    decreases |s|
  {
    if |s| == 0 {
    } else {
      FilterCounts(s[1..], c);
      assert s == [s[0]] + s[1..];
      assert multiset(s) == multiset([s[0]]) + multiset(s[1..]);
      if !IsStripped(s[0]) {
        assert multiset(Filter(s)) == multiset([s[0]]) + multiset(Filter(s[1..]));
      }
    }
  }

  /** The filter distributes over concatenation. */
  lemma {:induction false} FilterAppend(a: string, b: string)
    ensures Filter(a + b) == Filter(a) + Filter(b)
    decreases |a|
  {
    if |a| == 0 {
      assert a + b == b;
    } else {
      assert (a + b)[0] == a[0];
      assert (a + b)[1..] == a[1..] + b;
      FilterAppend(a[1..], b);
    }
  }

  /** The filter leaves a string unchanged exactly when it holds none of the dropped characters. */
  lemma {:induction false} FilterIdentity(s: string)
    ensures Filter(s) == s <==> NoStripped(s)
    decreases |s|
  {
    if NoStripped(s) && |s| > 0 {
      assert NoStripped(s[1..]) by {
        forall i | 0 <= i < |s[1..]| ensures !IsStripped(s[1..][i]) {
          assert s[1..][i] == s[i + 1];
        }
      }
      FilterIdentity(s[1..]);
      assert s == [s[0]] + s[1..];
    }
  }

  /** Applying the filter to its own output changes nothing. */
  lemma FilterIdempotent(s: string)
    ensures Filter(Filter(s)) == Filter(s)
  {
    FilterIdentity(Filter(s));
  }

  /** The words of the worked example, each short enough to evaluate directly. */
  lemma ExampleLead() ensures Filter(" i") == "i" {}
  lemma ExampleGots() ensures Filter(" gots") == "gots" {}
  lemma ExampleSpaces() ensures Filter(" spaces") == "spaces" {}
  lemma ExampleTail() ensures Filter("    ") == "" {}

  /**
   The worked example the script prints: `" i gots spaces    "`, passed here
   as its four words so that the proof goes through `FilterAppend` rather than
   evaluating the whole literal, becomes `"igotsspaces"`.
   */
  lemma FilterExample(lead: string, gots: string, spaces: string, tail: string)
    requires lead == " i" && gots == " gots" && spaces == " spaces" && tail == "    "
    ensures Filter(lead + gots + spaces + tail) == "igotsspaces"
  {
    FilterAppend(lead + gots + spaces, tail);
    FilterAppend(lead + gots, spaces);
    FilterAppend(lead, gots);
    ExampleLead();
    ExampleGots();
    ExampleSpaces();
    ExampleTail();
  }

  /** The worked example stated on the script's own literal. */
  lemma ScriptExample()
    ensures Filter(" i gots spaces    ") == "igotsspaces"
  {
    FilterExample(" i", " gots", " spaces", "    ");
    assert " i" + " gots" + " spaces" + "    " == " i gots spaces    ";
  }

  /**
   The loop of `removeWhitespace`: walk `s` left to right and append every
   character that is not one of the four dropped ones.
   */
  method RemoveWhitespace(s: string) returns (result: string)
    ensures result == Filter(s)
  {
    result := "";
    var i := 0;
    while i < |s|
      invariant 0 <= i <= |s|
      invariant result == Filter(s[..i])
    {
      if s[i] != ' ' && s[i] != '\t' && s[i] != '\n' && s[i] != '\r' {
        result := result + [s[i]];
      }
      FilterAppend(s[..i], [s[i]]);
      assert s[..i + 1] == s[..i] + [s[i]];
      i := i + 1;
    }
    assert s[..|s|] == s;
  }
}
