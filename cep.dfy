/** Normalisation of a postal code (CEP) before it is sent to the address
    service: every hyphen is removed, as Python's `str.replace('-', '')`
    does, so that "01001-000" and "01001000" reach the service as the same
    string. No other validation is performed. */
module Cep {
  import opened Sequences

  const Hyphen: char := '-'

  /** The code with every hyphen removed and every other character kept,
      in its original order. */
  function StripHyphens(s: string): (r: string)
    ensures Hyphen !in r
  {
    if s == [] then []
    else if s[0] == Hyphen then StripHyphens(s[1..])
    else [s[0]] + StripHyphens(s[1..])
  }

  /** Only hyphens are removed: every other character keeps its number of
      occurrences, so the length drops by the number of hyphens. */
  lemma {:induction false} StripHyphensCounts(s: string)
    ensures multiset(StripHyphens(s)) == multiset(s)[Hyphen := 0]
    ensures |StripHyphens(s)| == |s| - multiset(s)[Hyphen]
  {
    if s != [] {
      assert s == [s[0]] + s[1..];
      StripHyphensCounts(s[1..]);
    }
  }

  /** The characters that remain keep their original order. */
  lemma {:induction false} StripHyphensKeepsOrder(s: string)
    ensures IsSubsequence(StripHyphens(s), s)
  {
    if s != [] {
      StripHyphensKeepsOrder(s[1..]);
      var r, t := StripHyphens(s), StripHyphens(s[1..]);
      if s[0] != Hyphen {
        assert r[0] == s[0] && r[1..] == t;
      } else if r != [] {
        assert r == t;
      }
    }
  }

  /** Stripping distributes over concatenation. */
  lemma {:induction false} StripHyphensConcat(a: string, b: string)
    ensures StripHyphens(a + b) == StripHyphens(a) + StripHyphens(b)
  {
    if a == [] {
      assert a + b == b;
    } else {
      assert (a + b)[0] == a[0];
      assert (a + b)[1..] == a[1..] + b;
      StripHyphensConcat(a[1..], b);
    }
  }

  /** A code without hyphens is left as it is. */
  lemma {:induction false} StripHyphensKeepsPlainCode(s: string)
    requires Hyphen !in s
    ensures StripHyphens(s) == s
  {
    if s != [] {
      assert s[0] != Hyphen;
      StripHyphensKeepsPlainCode(s[1..]);
      assert s == [s[0]] + s[1..];
    }
  }

  /** Normalising twice is the same as normalising once. */
  lemma {:induction false} StripHyphensIdempotent(s: string)
    ensures StripHyphens(StripHyphens(s)) == StripHyphens(s)
  {
    StripHyphensKeepsPlainCode(StripHyphens(s));
  }

  /** Writing a hyphen anywhere in a code (usually after the fifth digit)
      does not change its normal form. */
  lemma HyphenInsensitive(a: string, b: string)
    ensures StripHyphens(a + [Hyphen] + b) == StripHyphens(a + b)
  {
    var h: string := [Hyphen];
    assert StripHyphens(h) == [] by {
      assert h[1..] == [];
    }
    StripHyphensConcat(a + h, b);
    StripHyphensConcat(a, h);
    StripHyphensConcat(a, b);
  }

  /** A hyphenated code whose digits carry no hyphen normalises to those
      digits. */
  lemma HyphenatedNormalForm(a: string, b: string)
    requires Hyphen !in a && Hyphen !in b
    ensures StripHyphens(a + [Hyphen] + b) == a + b
  {
    assert Hyphen !in a + b by {
      forall k | 0 <= k < |a + b| ensures (a + b)[k] != Hyphen {
        if k < |a| { assert (a + b)[k] == a[k]; } else { assert (a + b)[k] == b[k - |a|]; }
      }
    }
    HyphenInsensitive(a, b);
    StripHyphensKeepsPlainCode(a + b);
  }

  /** The example of the input template: "01001-000" normalises to "01001000". */
  lemma TemplateCodeNormalForm()
    ensures StripHyphens("01001-000") == "01001000"
  {
    var a, b := "01001", "000";
    assert "01001-000" == a + [Hyphen] + b;
    assert "01001000" == a + b;
    HyphenatedNormalForm(a, b);
  }
}
