/** Image-name processing of the composition command: expansion of `\V[n]`
    variable tokens and the JavaScript `slice` arithmetic that derives the
    registry key and the load names. */
module Names {

  /** JavaScript's `String.prototype.slice` position: a negative position counts
      from the end, and the result is clamped to `[0, len]`. */
  function SlicePosition(p: int, len: nat): (q: nat)
    ensures q <= len
    ensures 0 <= p <= len ==> q == p
    ensures p < 0 && len + p >= 0 ==> q == len + p
    ensures (p < 0 && len + p < 0 ==> q == 0) && (p > len ==> q == len)
  {
    if p < 0 then (if len + p < 0 then 0 else len + p)
    else if p > len then len
    else p
  }

  /** `s.slice(start, end)`: the characters between the two resolved positions,
      or the empty string when the end does not lie after the start. */
  function Slice(s: string, start: int, end: int): (r: string)
    ensures |r| <= |s|
  {
    var from := SlicePosition(start, |s|);
    var to := SlicePosition(end, |s|);
    if from < to then s[from..to] else []
  }

  /** `name.slice(1, -1)`: the base name without its surrounding delimiter pair. */
  function StripDelimiters(name: string): (key: string)
    ensures |name| >= 2 ==> name == [name[0]] + key + [name[|name| - 1]]
    ensures |name| < 2 ==> key == []
  {
    Slice(name, 1, -1)
  }

  /** `name.slice(0, -4)`: the name without its last four characters (the
      extension, such as `.png`); empty for names shorter than that. */
  function DropExtension(name: string): (stem: string)
    ensures |name| >= 4 ==> name == stem + name[|name| - 4..]
    ensures |name| < 4 ==> stem == []
  {
    Slice(name, 0, -4)
  }

  /** `slice(i, -j)` of a name made of a prefix of length `i`, a middle part and a
      non-empty suffix of length `j` returns exactly the middle part. */
  lemma SliceOfDecomposition(pre: string, mid: string, post: string)
    requires |post| > 0
    ensures Slice(pre + mid + post, |pre|, -|post|) == mid
  {
    assert (pre + mid + post)[|pre|..|pre| + |mid|] == mid;
  }

  lemma StripDelimitersRoundTrip(open: char, name: string, close: char)
    ensures StripDelimiters([open] + name + [close]) == name
  {
    SliceOfDecomposition([open], name, [close]);
  }

  lemma DropExtensionRoundTrip(stem: string, extension: string)
    requires |extension| == 4
    ensures DropExtension(stem + extension) == stem
  {
    SliceOfDecomposition([], stem, extension);
    assert [] + stem + extension == stem + extension;
  }

  /** `\d` of a JavaScript regular expression without the `u` flag. */
  predicate IsDigit(c: char)
  {
    '0' <= c <= '9'
  }

  /** Length of the run of digits of `s` that starts at position `i`. */
  function DigitRun(s: string, i: nat): (n: nat)
    requires i <= |s|
    decreases |s| - i
    ensures i + n <= |s|
  {
    if i < |s| && IsDigit(s[i]) then 1 + DigitRun(s, i + 1) else 0
  }

  /** The run is the greedy match of `\d+`: every character in it is a digit and
      the character after it, if any, is not. */
  lemma {:induction false} DigitRunIsGreedy(s: string, i: nat)
    requires i <= |s|
    decreases |s| - i
    ensures forall k :: i <= k < i + DigitRun(s, i) ==> IsDigit(s[k])
    ensures i + DigitRun(s, i) < |s| ==> !IsDigit(s[i + DigitRun(s, i)])
  {
    if i < |s| && IsDigit(s[i]) {
      DigitRunIsGreedy(s, i + 1);
    }
  }

  /** A match of `/\\V\[(\d+)\]/` starts at position `i` of `s`: a backslash, `V`,
      `[`, one or more digits, then `]`. Since `]` is not a digit, the greedy
      digit run is the only candidate length. */
  predicate TokenAt(s: string, i: nat)
  {
    i + 3 <= |s| && s[i] == '\\' && s[i + 1] == 'V' && s[i + 2] == '[' &&
    var n := DigitRun(s, i + 3);
    n > 0 && i + 3 + n < |s| && s[i + 3 + n] == ']'
  }

  /** The digits captured by the token at `i`, the text handed to the variable lookup. */
  function TokenDigits(s: string, i: nat): string
    requires TokenAt(s, i)
  {
    s[i + 3..i + 3 + DigitRun(s, i + 3)]
  }

  /** The position just after the closing `]` of the token at `i`. */
  function TokenEnd(s: string, i: nat): (end: nat)
    requires TokenAt(s, i)
    ensures i < end <= |s|
  {
    i + 4 + DigitRun(s, i + 3)
  }

  /** The global replacement, resumed at position `i`: every token from `i` on is
      replaced by the value looked up for its digits, and the scan resumes after it. */
  function SubstituteFrom(s: string, i: nat, lookup: string -> string): string
    requires i <= |s|
    decreases |s| - i
  {
    if i == |s| then []
    else if TokenAt(s, i) then lookup(TokenDigits(s, i)) + SubstituteFrom(s, TokenEnd(s, i), lookup)
    else [s[i]] + SubstituteFrom(s, i + 1, lookup)
  }

  /** `name.replace(/\\V\[(\d+)\]/g, (_, id) => lookup(id))`. */
  function Substitute(s: string, lookup: string -> string): string
  {
    SubstituteFrom(s, 0, lookup)
  }

  predicate NoToken(s: string)
  {
    forall i :: 0 <= i < |s| ==> !TokenAt(s, i)
  }

  /** Every token starts with a backslash. */
  lemma NoBackslashNoToken(s: string)
    requires '\\' !in s
    ensures NoToken(s)
  {
    forall i | 0 <= i < |s|
      ensures !TokenAt(s, i)
    {
      assert s[i] in s;
    }
  }

  lemma {:induction false} SubstituteFromNoToken(s: string, i: nat, lookup: string -> string)
    requires i <= |s|
    requires forall j :: i <= j < |s| ==> !TokenAt(s, j)
    decreases |s| - i
    ensures SubstituteFrom(s, i, lookup) == s[i..]
  {
    if i < |s| {
      SubstituteFromNoToken(s, i + 1, lookup);
      assert [s[i]] + s[i + 1..] == s[i..];
    }
  }

  /** A name without any `\V[digits]` token is left unchanged. */
  lemma SubstituteNoToken(s: string, lookup: string -> string)
    requires NoToken(s)
    ensures Substitute(s, lookup) == s
  {
    SubstituteFromNoToken(s, 0, lookup);
  }

  lemma {:induction false} DigitRunOfSuffix(s: string, j: nat, k: nat)
    requires j + k <= |s|
    decreases |s| - j - k
    ensures DigitRun(s, j + k) == DigitRun(s[j..], k)
  {
    if j + k < |s| {
      DigitRunOfSuffix(s, j, k + 1);
    }
  }

  /** A token is recognised the same way in a suffix of the name. */
  lemma TokenAtSuffix(s: string, j: nat, k: nat)
    requires j + k <= |s|
    ensures TokenAt(s, j + k) <==> TokenAt(s[j..], k)
    ensures TokenAt(s, j + k) ==>
              TokenDigits(s, j + k) == TokenDigits(s[j..], k) && TokenEnd(s, j + k) == j + TokenEnd(s[j..], k)
  {
    if j + k + 3 <= |s| {
      DigitRunOfSuffix(s, j, k + 3);
    }
  }

  /** Resuming the scan at position `j + k` of a name is scanning its suffix from `k`. */
  lemma {:induction false} SubstituteFromSuffix(s: string, j: nat, k: nat, lookup: string -> string)
    requires j + k <= |s|
    decreases |s| - j - k
    ensures SubstituteFrom(s, j + k, lookup) == SubstituteFrom(s[j..], k, lookup)
  {
    if j + k < |s| {
      TokenAtSuffix(s, j, k);
      if TokenAt(s, j + k) {
        SubstituteFromSuffix(s, j, TokenEnd(s[j..], k), lookup);
      } else {
        SubstituteFromSuffix(s, j, k + 1, lookup);
      }
    }
  }

  /** The position of the first token at or after `i`, or `|s|` if there is none. */
  function NextToken(s: string, i: nat): (p: nat)
    requires i <= |s|
    decreases |s| - i
    ensures i <= p <= |s|
  {
    if i == |s| || TokenAt(s, i) then i else NextToken(s, i + 1)
  }

  /** Every position between `i` and the next token is plain text. */
  lemma {:induction false} NextTokenIsFirst(s: string, i: nat)
    requires i <= |s|
    decreases |s| - i
    ensures NextToken(s, i) < |s| ==> TokenAt(s, NextToken(s, i))
    ensures forall j :: i <= j < NextToken(s, i) ==> !TokenAt(s, j)
  {
    if i < |s| && !TokenAt(s, i) {
      NextTokenIsFirst(s, i + 1);
    }
  }

  /** The scan copies the text up to the next token, then replaces that token. */
  lemma {:induction false} SubstituteFromNextToken(s: string, i: nat, lookup: string -> string)
    requires i <= |s|
    decreases |s| - i
    ensures var p := NextToken(s, i);
            p < |s| ==> (TokenAt(s, p) &&
              SubstituteFrom(s, i, lookup) == s[i..p] + (lookup(TokenDigits(s, p)) + SubstituteFrom(s, TokenEnd(s, p), lookup)))
  {
    if i < |s| && !TokenAt(s, i) {
      SubstituteFromNextToken(s, i + 1, lookup);
      if NextToken(s, i + 1) < |s| {
        var p := NextToken(s, i + 1);
        CopyPlainChar(s, i, p, lookup(TokenDigits(s, p)) + SubstituteFrom(s, TokenEnd(s, p), lookup), lookup);
      }
    } else if i < |s| {
      assert s[i..i] == [];
    }
  }

  /** One plain character in front of text whose substitution is already known. */
  lemma CopyPlainChar(s: string, i: nat, p: nat, rest: string, lookup: string -> string)
    requires i < p <= |s| && !TokenAt(s, i)
    requires SubstituteFrom(s, i + 1, lookup) == s[i + 1..p] + rest
    ensures SubstituteFrom(s, i, lookup) == s[i..p] + rest
  {
    SubstituteFromSkip(s, i, lookup);
    assert [s[i]] + s[i + 1..p] == s[i..p];
  }

  /** A position that does not start a token is copied as it is. */
  lemma SubstituteFromSkip(s: string, i: nat, lookup: string -> string)
    requires i < |s| && !TokenAt(s, i)
    ensures SubstituteFrom(s, i, lookup) == [s[i]] + SubstituteFrom(s, i + 1, lookup)
  {
  }

  /** The first token of a name is replaced by its looked-up value; the text before
      it is kept and the rest of the name after its closing bracket is substituted
      in turn. */
  lemma SubstituteFirstToken(s: string, n: nat, lookup: string -> string)
    requires TokenAt(s, n)
    requires forall i :: 0 <= i < n ==> !TokenAt(s, i)
    ensures Substitute(s, lookup)
         == s[..n] + lookup(TokenDigits(s, n)) + Substitute(s[TokenEnd(s, n)..], lookup)
  {
    NextTokenIsFirst(s, 0);
    assert NextToken(s, 0) == n;
    SubstituteFromNextToken(s, 0, lookup);
    SubstituteFromSuffix(s, TokenEnd(s, n), 0, lookup);
  }

  lemma {:induction false} DigitRunOfDigits(s: string, i: nat, len: nat)
    requires i + len < |s|
    requires forall k :: i <= k < i + len ==> IsDigit(s[k])
    requires !IsDigit(s[i + len])
    decreases len
    ensures DigitRun(s, i) == len
  {
    if len > 0 {
      DigitRunOfDigits(s, i + 1, len - 1);
    }
  }

  /** A name that starts with the token `\V[digits]` begins, after substitution,
      with the value of that variable; the rest is substituted in turn. */
  lemma SubstituteLeadingToken(digits: string, rest: string, lookup: string -> string)
    requires digits != [] && forall k :: 0 <= k < |digits| ==> IsDigit(digits[k])
    ensures Substitute("\\V[" + digits + "]" + rest, lookup) == lookup(digits) + Substitute(rest, lookup)
  {
    var s := "\\V[" + digits + "]" + rest;
    DigitRunOfDigits(s, 3, |digits|);
    assert TokenAt(s, 0);
    assert TokenDigits(s, 0) == digits;
    assert s[TokenEnd(s, 0)..] == rest;
    SubstituteFirstToken(s, 0, lookup);
  }

  /** `\V[7].png` with variable 7 holding `x` resolves to `x.png`. */
  lemma SubstituteVariableExample(lookup: string -> string)
    requires lookup("7") == "x"
    ensures Substitute("\\V[7].png", lookup) == "x.png"
  {
    SubstituteLeadingToken("7", ".png", lookup);
    assert "\\V[7].png" == "\\V[" + "7" + "]" + ".png";
    SubstituteNoToken(".png", lookup);
  }
}
