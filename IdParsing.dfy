/**
 * `parse_ids` (utils/data_fetch.py:10-15): free text to a list of employee ids.
 * Newlines become commas, the text is split on commas, every piece is stripped of
 * surrounding whitespace, and only the all-digit pieces are kept, converted with `int`.
 */
module IdParsing {
  import opened Text

  /** The characters that separate ids. */
  predicate IsSeparator(c: char) {
    c == ',' || c == '\n'
  }

  /** Every piece stripped of its surrounding whitespace. */
  function StripAll(parts: seq<string>): (r: seq<string>)
    ensures |r| == |parts|
    ensures forall i :: 0 <= i < |parts| ==> r[i] == Strip(parts[i])
  {
    seq(|parts|, i requires 0 <= i < |parts| => Strip(parts[i]))
  }

  /** The separator-delimited pieces of `raw`, already stripped. */
  function Tokens(raw: string): (ts: seq<string>)
    ensures |ts| >= 1
  {
    StripAll(Split(Replace(raw, '\n', ','), ','))
  }

  /** The all-digit tokens, as numbers, in order. */
  function KeepIds(tokens: seq<string>): (ids: seq<nat>)
    ensures |ids| <= |tokens|
    decreases |tokens|
  {
    if tokens == [] then []
    else (if IsDigits(tokens[0]) then [DigitsValue(tokens[0])] else []) + KeepIds(tokens[1..])
  }

  /** `parse_ids(raw)`. */
  function ParseIds(raw: string): (ids: seq<nat>)
  {
    if raw == "" then [] else KeepIds(Tokens(raw))
  }

  lemma {:induction false} KeepIdsConcat(a: seq<string>, b: seq<string>)
    ensures KeepIds(a + b) == KeepIds(a) + KeepIds(b)
    decreases |a|
  {
    if a == [] {
      assert a + b == b;
    } else {
      var head := if IsDigits(a[0]) then [DigitsValue(a[0])] else [];
      assert (a + b)[0] == a[0];
      assert (a + b)[1..] == a[1..] + b;
      calc {
        KeepIds(a + b);
        head + KeepIds(a[1..] + b);
        { KeepIdsConcat(a[1..], b); }
        head + (KeepIds(a[1..]) + KeepIds(b));
        (head + KeepIds(a[1..])) + KeepIds(b);
      }
    }
  }

  lemma {:induction false} KeepIdsEmpty(tokens: seq<string>)
    ensures KeepIds(tokens) == [] <==> forall i :: 0 <= i < |tokens| ==> !IsDigits(tokens[i])
    decreases |tokens|
  {
    if tokens != [] {
      KeepIdsEmpty(tokens[1..]);
      assert forall i :: 1 <= i < |tokens| ==> tokens[i] == tokens[1..][i - 1];
    }
  }

  lemma {:induction false} KeepIdsMembers(tokens: seq<string>, x: nat)
    ensures x in KeepIds(tokens) <==>
      exists i :: 0 <= i < |tokens| && IsDigits(tokens[i]) && DigitsValue(tokens[i]) == x
    decreases |tokens|
  {
    if tokens != [] {
      KeepIdsMembers(tokens[1..], x);
      if exists i :: 1 <= i < |tokens| && IsDigits(tokens[i]) && DigitsValue(tokens[i]) == x {
        var i :| 1 <= i < |tokens| && IsDigits(tokens[i]) && DigitsValue(tokens[i]) == x;
        assert tokens[1..][i - 1] == tokens[i];
      }
    }
  }

  lemma TokensOfEmpty()
    ensures Tokens("") == [""]
  {
    assert Replace("", '\n', ',') == "";
    assert Split("", ',') == [""];
    assert Strip("") == "";
  }

  /** The early return for empty text agrees with the general rule. */
  lemma ParseIdsIsKeepIds(raw: string)
    ensures ParseIds(raw) == KeepIds(Tokens(raw))
  {
    if raw == "" {
      TokensOfEmpty();
      assert !IsDigits("");
    }
  }

  /** Never more ids than separator-delimited pieces. */
  lemma ParseIdsLength(raw: string)
    ensures |ParseIds(raw)| <= |Split(Replace(raw, '\n', ','), ',')|
  {
    ParseIdsIsKeepIds(raw);
  }

  /** Nothing comes out exactly when no piece is all digits; in particular `parse_ids("") == []`. */
  lemma ParseIdsEmpty(raw: string)
    ensures ParseIds(raw) == [] <==> forall i :: 0 <= i < |Tokens(raw)| ==> !IsDigits(Tokens(raw)[i])
  {
    ParseIdsIsKeepIds(raw);
    KeepIdsEmpty(Tokens(raw));
  }

  /** A number comes out exactly when some piece is all digits and has that value. */
  lemma ParseIdsMembers(raw: string, x: nat)
    ensures x in ParseIds(raw) <==>
      exists i :: 0 <= i < |Tokens(raw)| && IsDigits(Tokens(raw)[i]) && DigitsValue(Tokens(raw)[i]) == x
  {
    ParseIdsIsKeepIds(raw);
    KeepIdsMembers(Tokens(raw), x);
  }

  /** Commas and newlines are interchangeable. */
  lemma SeparatorsEquivalent(s: string, t: string)
    requires |s| == |t|
    requires forall i :: 0 <= i < |s| ==> s[i] == t[i] || (IsSeparator(s[i]) && IsSeparator(t[i]))
    ensures ParseIds(s) == ParseIds(t)
  {
    assert Replace(s, '\n', ',') == Replace(t, '\n', ',');
  }

  lemma ReplaceConcat(a: string, b: string)
    ensures Replace(a + [','] + b, '\n', ',') == Replace(a, '\n', ',') + [','] + Replace(b, '\n', ',')
  {
  }

  lemma TokensConcat(a: string, b: string)
    ensures Tokens(a + [','] + b) == Tokens(a) + Tokens(b)
  {
    var ra, rb := Replace(a, '\n', ','), Replace(b, '\n', ',');
    ReplaceConcat(a, b);
    SplitConcat(ra, ',', rb);
    var pa, pb := Split(ra, ','), Split(rb, ',');
    assert StripAll(pa + pb) == StripAll(pa) + StripAll(pb);
  }

  /** The ids of two texts joined by a comma are the ids of the first followed by those of the second. */
  lemma ParseIdsConcat(a: string, b: string)
    ensures ParseIds(a + [','] + b) == ParseIds(a) + ParseIds(b)
  {
    ParseIdsIsKeepIds(a + [','] + b);
    ParseIdsIsKeepIds(a);
    ParseIdsIsKeepIds(b);
    TokensConcat(a, b);
    KeepIdsConcat(Tokens(a), Tokens(b));
  }

  /** One piece: whitespace around an all-digit token is ignored. */
  lemma ParseIdsPaddedToken(pre: string, digits: string, post: string)
    requires AllSpace(pre) && AllSpace(post) && '\n' !in pre && '\n' !in post
    requires IsDigits(digits)
    ensures ParseIds(pre + digits + post) == [DigitsValue(digits)]
  {
    var raw := pre + digits + post;
    assert ',' !in raw by {
      forall i | 0 <= i < |raw| ensures raw[i] != ',' {
        if i < |pre| { assert raw[i] == pre[i]; }
        else if i < |pre| + |digits| { assert raw[i] == digits[i - |pre|]; }
        else { assert raw[i] == post[i - |pre| - |digits|]; }
      }
    }
    assert Replace(raw, '\n', ',') == raw;
    StripPadded(pre, digits, post);
  }

  /** Text without separators is one piece. */
  lemma SinglePiece(t: string)
    requires ',' !in t && '\n' !in t
    ensures ParseIds(t) == KeepIds([Strip(t)])
  {
    assert Replace(t, '\n', ',') == t;
    assert Tokens(t) == [Strip(t)];
    ParseIdsIsKeepIds(t);
  }

  /** One piece without a separator that is not all digits after stripping yields nothing. */
  lemma ParseIdsRejectedToken(t: string)
    requires ',' !in t && '\n' !in t
    requires !IsDigits(Strip(t))
    ensures ParseIds(t) == []
  {
    SinglePiece(t);
  }

  /** `",".join(str(i) for i in ids)`. */
  function JoinIds(ids: seq<nat>): string {
    if ids == [] then "" else Join(Render(ids), ',')
  }

  /** The decimal renderings of `ids`. */
  function Render(ids: seq<nat>): (strs: seq<string>)
    ensures |strs| == |ids|
    ensures forall k :: 0 <= k < |ids| ==> strs[k] == NatToString(ids[k])
  {
    seq(|ids|, i requires 0 <= i < |ids| => NatToString(ids[i]))
  }

  /** Digit strings joined by commas split back into themselves. */
  lemma TokensOfJoin(strs: seq<string>)
    requires |strs| >= 1 && forall k :: 0 <= k < |strs| ==> IsDigits(strs[k])
    ensures Tokens(Join(strs, ',')) == strs
  {
    var raw := Join(strs, ',');
    ReplaceNoNewline(strs);
    SplitJoinDigits(strs);
    StripAllDigits(strs);
    calc {
      Tokens(raw);
      StripAll(Split(Replace(raw, '\n', ','), ','));
      StripAll(Split(raw, ','));
      StripAll(strs);
      strs;
    }
  }

  lemma ReplaceNoNewline(strs: seq<string>)
    requires |strs| >= 1 && forall k :: 0 <= k < |strs| ==> IsDigits(strs[k])
    ensures Replace(Join(strs, ','), '\n', ',') == Join(strs, ',')
  {
    forall k | 0 <= k < |strs| ensures '\n' !in strs[k] {
      assert IsDigits(strs[k]);
    }
    NoNewlineInJoin(strs);
  }

  lemma SplitJoinDigits(strs: seq<string>)
    requires |strs| >= 1 && forall k :: 0 <= k < |strs| ==> IsDigits(strs[k])
    ensures Split(Join(strs, ','), ',') == strs
  {
    forall k | 0 <= k < |strs| ensures ',' !in strs[k] {
      assert IsDigits(strs[k]);
    }
    SplitJoin(strs, ',');
  }

  lemma StripAllDigits(strs: seq<string>)
    requires forall k :: 0 <= k < |strs| ==> IsDigits(strs[k])
    ensures StripAll(strs) == strs
  {
    forall k | 0 <= k < |strs| ensures Strip(strs[k]) == strs[k] {
      StripUnpadded(strs[k]);
    }
  }

  /** Rendering a list of ids with commas and parsing it gives the list back. */
  lemma ParseJoinIds(ids: seq<nat>)
    ensures ParseIds(JoinIds(ids)) == ids
  {
    if ids != [] {
      var strs := Render(ids);
      assert JoinIds(ids) == Join(strs, ',');
      TokensOfJoin(strs);
      forall k | 0 <= k < |strs| ensures IsDigits(strs[k]) && DigitsValue(strs[k]) == ids[k] {
        DigitsValueOfNatToString(ids[k]);
      }
      KeepIdsAllDigits(strs, ids);
      ParseIdsIsKeepIds(JoinIds(ids));
    }
  }


  lemma {:induction false} NoNewlineInJoin(parts: seq<string>)
    requires |parts| >= 1 && forall k :: 0 <= k < |parts| ==> '\n' !in parts[k]
    ensures '\n' !in Join(parts, ',')
    decreases |parts|
  {
    if |parts| > 1 {
      NoNewlineInJoin(parts[1..]);
    }
  }

  lemma {:induction false} KeepIdsAllDigits(strs: seq<string>, ids: seq<nat>)
    requires |strs| == |ids|
    requires forall k :: 0 <= k < |strs| ==> IsDigits(strs[k]) && DigitsValue(strs[k]) == ids[k]
    ensures KeepIds(strs) == ids
    decreases |strs|
  {
    if strs != [] {
      KeepIdsAllDigits(strs[1..], ids[1..]);
    }
  }

  /** Parsing is idempotent: re-parsing the comma-joined result changes nothing. */
  lemma ParseIdsIdempotent(raw: string)
    ensures ParseIds(JoinIds(ParseIds(raw))) == ParseIds(raw)
  {
    ParseJoinIds(ParseIds(raw));
  }
}
