/** Text operations the registry relies on: Ruby's String#<=> ordering,
    `starts_with?`, the SQL `LIKE '%X'` suffix test, `gsub` of a fixed
    pattern and `demodulize`. Characters compare by code point, as Ruby
    compares the bytes of UTF-8 strings. */
module Strings {

  /** `a <=> b` is -1 or 0: `a` sorts no later than `b`. */
  predicate NoLater(a: string, b: string)
  {
    |a| == 0 || (|b| > 0 && (a[0] < b[0] || (a[0] == b[0] && NoLater(a[1..], b[1..]))))
  }

  /** `a <=> b` is -1. */
  predicate Precedes(a: string, b: string)
  {
    NoLater(a, b) && a != b
  }

  lemma {:induction false} NoLaterReflexive(a: string)
    ensures NoLater(a, a)
  {
    if |a| > 0 {
      NoLaterReflexive(a[1..]);
    }
  }

  lemma {:induction false} NoLaterAntisymmetric(a: string, b: string)
    requires NoLater(a, b) && NoLater(b, a)
    ensures a == b
  {
    if |a| > 0 && |b| > 0 {
      NoLaterAntisymmetric(a[1..], b[1..]);
      assert a == [a[0]] + a[1..];
      assert b == [b[0]] + b[1..];
    }
  }

  lemma {:induction false} NoLaterTransitive(a: string, b: string, c: string)
    requires NoLater(a, b) && NoLater(b, c)
    ensures NoLater(a, c)
  {
    if |a| > 0 && |b| > 0 && |c| > 0 && a[0] == b[0] == c[0] {
      NoLaterTransitive(a[1..], b[1..], c[1..]);
    }
  }

  lemma {:induction false} NoLaterTotal(a: string, b: string)
    ensures NoLater(a, b) || NoLater(b, a)
  {
    if |a| > 0 && |b| > 0 && a[0] == b[0] {
      NoLaterTotal(a[1..], b[1..]);
    }
  }

  /** Of two different names, exactly one precedes the other. */
  lemma PrecedesTrichotomy(a: string, b: string)
    requires a != b
    ensures Precedes(a, b) != Precedes(b, a)
  {
    NoLaterTotal(a, b);
    if NoLater(a, b) && NoLater(b, a) {
      NoLaterAntisymmetric(a, b);
    }
  }

  /** Ruby's `s.starts_with?(p)`. */
  predicate StartsWith(s: string, p: string)
  {
    |p| <= |s| && s[..|p|] == p
  }

  /** SQL `s LIKE '%p'` with no wildcard inside `p`: `s` ends with `p`. */
  predicate EndsWith(s: string, p: string)
  {
    |p| <= |s| && s[|s| - |p|..] == p
  }

  /** `s.gsub(/pat/, "")` for a pattern without regular-expression
      metacharacters: one left-to-right scan that deletes every
      non-overlapping occurrence. */
  function RemoveAll(s: string, pat: string): (r: string)
    requires pat != []
    ensures |r| <= |s|
    ensures StartsWith(s, pat) ==> |r| <= |s| - |pat|
    decreases |s|
  {
    if |s| < |pat| then s
    else if s[..|pat|] == pat then RemoveAll(s[|pat|..], pat)
    else [s[0]] + RemoveAll(s[1..], pat)
  }

  /** `gsub` makes one pass, so removing the pattern can form a new
      occurrence of it: "CCms::ms::" becomes "Cms::". */
  lemma RemoveAllSinglePass()
    ensures RemoveAll("CCms::ms::", "Cms::") == "Cms::"
  {
    var p := "Cms::";
    var s := "CCms::ms::";
    assert s[..5][1] != p[1];
    assert s[1..][..5] == p;
    assert s[1..][5..] == "ms::";
  }

  /** A name with no ':' in it, so no namespace separator either. */
  predicate Unqualified(x: string)
  {
    forall i :: 0 <= i < |x| ==> x[i] != ':'
  }

  /** ActiveSupport's `demodulize`: what follows the last "::" (found with
      `rindex`), or the whole string when there is none. */
  function Demodulize(s: string): (r: string)
    ensures |r| <= |s|
    ensures Unqualified(s) ==> r == s
    decreases |s|
  {
    if |s| < 2 then s
    else if s[|s| - 2..] == "::" then
      assert s[|s| - 1] == s[|s| - 2..][1];
      ""
    else
      var init := s[..|s| - 1];
      assert Unqualified(s) ==> Unqualified(init) by {
        if Unqualified(s) {
          UnqualifiedInit(s);
        }
      }
      assert init + [s[|s| - 1]] == s;
      Demodulize(init) + [s[|s| - 1]]
  }

  /** Appending a character other than ':' appends it to the demodulized
      form. */
  lemma DemodulizeSnoc(s: string, c: char)
    requires s != [] && c != ':'
    ensures Demodulize(s + [c]) == Demodulize(s) + [c]
  {
    var t := s + [c];
    assert t[|t| - 2..][1] == c;
    assert t[..|t| - 1] == s;
  }

  /** A name with no ':' keeps none when its last character goes. */
  lemma UnqualifiedInit(x: string)
    requires x != [] && Unqualified(x)
    ensures Unqualified(x[..|x| - 1])
  {
    var init := x[..|x| - 1];
    forall i | 0 <= i < |init| ensures init[i] != ':' {
      assert init[i] == x[i];
    }
  }

  /** A name that ends in "::" demodulizes to nothing. */
  lemma DemodulizeSeparator(p: string)
    ensures Demodulize(p + "::") == ""
  {
    var s := p + "::";
    assert s[|s| - 2..] == "::";
  }

  /** Extending the last segment of a qualified name extends its
      demodulized form. */
  lemma DemodulizeQualifiedSnoc(p: string, x: string, c: char)
    requires c != ':'
    ensures Demodulize(p + "::" + (x + [c])) == Demodulize(p + "::" + x) + [c]
  {
    assert p + "::" + (x + [c]) == (p + "::" + x) + [c];
    DemodulizeSnoc(p + "::" + x, c);
  }

  /** Demodulizing a qualified name keeps exactly the part after its last
      "::": `Demodulize("Cms::HtmlBlock") == "HtmlBlock"`. */
  lemma {:induction false} DemodulizeQualified(p: string, x: string)
    requires Unqualified(x)
    ensures Demodulize(p + "::" + x) == x
  {
    if x == [] {
      assert p + "::" + x == p + "::";
      DemodulizeSeparator(p);
    } else {
      var init, last := x[..|x| - 1], x[|x| - 1];
      assert init + [last] == x;
      assert last != ':' && Unqualified(init) by {
        UnqualifiedInit(x);
      }
      DemodulizeQualified(p, init);
      DemodulizeQualifiedSnoc(p, init, last);
    }
  }
}
