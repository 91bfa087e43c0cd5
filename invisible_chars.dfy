/** The per-cell cleaning policy: which code points count as invisible, the
    filter that deletes them from a string, and its lifting to a table cell. */
module InvisibleChars {

  /** The character class U+200B..U+200D (zero-width space, zero-width
      non-joiner, zero-width joiner) together with U+FEFF (byte-order mark,
      zero-width no-break space). */
  predicate IsInvisible(c: char) {
    ('\U{200B}' <= c <= '\U{200D}') || c == '\U{FEFF}'
  }

  /** A string that holds no invisible character. */
  predicate IsClean(s: string) {
    forall i :: 0 <= i < |s| ==> !IsInvisible(s[i])
  }

  /** The substitution of the empty string for every invisible character,
      scanning left to right. */
  function Strip(s: string): (r: string)
    ensures IsClean(r)
    ensures |r| <= |s|
  {
    if s == [] then []
    else if IsInvisible(s[0]) then Strip(s[1..])
    else [s[0]] + Strip(s[1..])
  }

  /** Deleting from a concatenation deletes from each part. */
  lemma {:induction false} StripConcat(a: string, b: string)
    ensures Strip(a + b) == Strip(a) + Strip(b)
  {
    if a == [] {
      assert a + b == b;
    } else {
      assert (a + b)[0] == a[0];
      assert (a + b)[1..] == a[1..] + b;
      StripConcat(a[1..], b);
    }
  }

  /** Every visible character keeps its number of occurrences, every invisible
      one disappears. */
  lemma {:induction false} StripCounts(s: string)
    ensures forall c :: multiset(Strip(s))[c] == if IsInvisible(c) then 0 else multiset(s)[c]
  {
    if s != [] {
      StripCounts(s[1..]);
      assert s == [s[0]] + s[1..];
      assert multiset(s) == multiset{s[0]} + multiset(s[1..]);
    }
  }

  /** A string comes back unchanged exactly when it is already clean; otherwise
      it comes back strictly shorter. */
  lemma {:induction false} StripFixesExactlyClean(s: string)
    ensures Strip(s) == s <==> IsClean(s)
    ensures !IsClean(s) ==> |Strip(s)| < |s|
  {
    if s != [] {
      StripFixesExactlyClean(s[1..]);
      if IsInvisible(s[0]) {
        assert !IsClean(s);
      } else {
        assert IsClean(s) <==> IsClean(s[1..]) by {
          if IsClean(s[1..]) {
            forall i | 0 <= i < |s| ensures !IsInvisible(s[i]) {
              if i > 0 { assert s[i] == s[1..][i - 1]; }
            }
          }
          if IsClean(s) {
            forall i | 0 <= i < |s[1..]| ensures !IsInvisible(s[1..][i]) {
              assert s[1..][i] == s[i + 1];
            }
          }
        }
        assert s == [s[0]] + s[1..];
      }
    }
  }

  /** Cleaning a string twice is the same as cleaning it once. */
  lemma StripIdempotent(s: string)
    ensures Strip(Strip(s)) == Strip(s)
  {
    StripFixesExactlyClean(Strip(s));
  }

  /** The positions of the visible characters of s, in increasing order. */
  ghost function VisibleIndices(s: string): (ix: seq<nat>)
    ensures forall k :: 0 <= k < |ix| ==> ix[k] < |s| && !IsInvisible(s[ix[k]])
    ensures forall k, l :: 0 <= k < l < |ix| ==> ix[k] < ix[l]
    ensures forall j :: 0 <= j < |s| && !IsInvisible(s[j]) ==> j in ix
  {
    if s == [] then []
    else
      var init := s[..|s| - 1];
      assert forall j :: 0 <= j < |init| ==> init[j] == s[j];
      VisibleIndices(init) + if IsInvisible(s[|s| - 1]) then [] else [|s| - 1]
  }

  /** The cleaned string is exactly the visible characters of the input, each
      taken once, in their original order. */
  lemma {:induction false} StripSelectsVisible(s: string)
    ensures |Strip(s)| == |VisibleIndices(s)|
    ensures forall k :: 0 <= k < |Strip(s)| ==> Strip(s)[k] == s[VisibleIndices(s)[k]]
  {
    if s != [] {
      var init, last := s[..|s| - 1], s[|s| - 1];
      assert s == init + [last];
      StripSelectsVisible(init);
      StripConcat(init, [last]);
      assert Strip([last]) == if IsInvisible(last) then [] else [last] by {
        assert [last][1..] == [];
      }
      forall k | 0 <= k < |Strip(init)| ensures s[VisibleIndices(init)[k]] == init[VisibleIndices(init)[k]] {
      }
    }
  }

  /** A spreadsheet cell: text, a number, or nothing. */
  datatype Cell = Str(text: string) | Num(value: real) | Empty

  /** The per-cell filter: text cells are cleaned, every other cell passes
      through as it is. */
  function RemoveInvisibleChars(v: Cell): (r: Cell)
    ensures r.Str? <==> v.Str?
    ensures !v.Str? ==> r == v
    ensures r.Str? ==> IsClean(r.text) && |r.text| <= |v.text|
    ensures r.Str? && IsClean(v.text) ==> r == v
  {
    match v
    case Str(s) =>
      StripFixesExactlyClean(s);
      Str(Strip(s))
    case _ => v
  }

  /** A cell comes back unchanged exactly when it is not text or its text is
      already clean. */
  lemma CellFixesExactlyClean(v: Cell)
    ensures RemoveInvisibleChars(v) == v <==> (!v.Str? || IsClean(v.text))
  {
    if v.Str? { StripFixesExactlyClean(v.text); }
  }

  /** Applying the per-cell filter twice is the same as applying it once. */
  lemma CellIdempotent(v: Cell)
    ensures RemoveInvisibleChars(RemoveInvisibleChars(v)) == RemoveInvisibleChars(v)
  {
    CellFixesExactlyClean(RemoveInvisibleChars(v));
  }

  /** Two trailing invisible characters: "Ana" followed by U+200B and "Bob"
      followed by U+FEFF come back as "Ana" and "Bob". */
  lemma TrailingInvisibleExample()
    ensures RemoveInvisibleChars(Str("Ana\U{200B}")) == Str("Ana")
    ensures RemoveInvisibleChars(Str("Bob\U{FEFF}")) == Str("Bob")
  {
    assert Strip("Ana\U{200B}") == "A" + Strip("na\U{200B}");
    assert Strip("Bob\U{FEFF}") == "B" + Strip("ob\U{FEFF}");
  }
}
