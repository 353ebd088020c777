/** The few JavaScript string operations the engine relies on. */
module JsText {

  /**
   * The code points that `String.prototype.trim` removes: ECMAScript's
   * WhiteSpace and LineTerminator productions.
   */
  predicate IsSpace(ch: char) {
    || ch in {'\t', '\n', '\U{000B}', '\U{000C}', '\r', ' ', '\U{00A0}', '\U{1680}',
              '\U{2028}', '\U{2029}', '\U{202F}', '\U{205F}', '\U{3000}', '\U{FEFF}'}
    || '\U{2000}' <= ch <= '\U{200A}'
  }

  /** True when `s` has no white space at either end. */
  predicate Trimmed(s: string) {
    s == [] || (!IsSpace(s[0]) && !IsSpace(s[|s| - 1]))
  }

  /** `s` without its leading white space. */
  function TrimStart(s: string): string {
    if s != [] && IsSpace(s[0]) then TrimStart(s[1..]) else s
  }

  /** `s` without its trailing white space. */
  function TrimEnd(s: string): string {
    if s != [] && IsSpace(s[|s| - 1]) then TrimEnd(s[..|s| - 1]) else s
  }

  /** `s.trim()`. */
  function Trim(s: string): string {
    TrimEnd(TrimStart(s))
  }

  /** Trimming the start drops exactly the leading white space. */
  lemma {:induction false} TrimStartSpec(s: string)
    ensures TrimStart(s) == [] || !IsSpace(TrimStart(s)[0])
    ensures |TrimStart(s)| <= |s| && TrimStart(s) == s[|s| - |TrimStart(s)|..]
    ensures forall k | 0 <= k < |s| - |TrimStart(s)| :: IsSpace(s[k])
  {
    if s != [] && IsSpace(s[0]) {
      TrimStartSpec(s[1..]);
    }
  }

  /** Trimming the end drops exactly the trailing white space. */
  lemma {:induction false} TrimEndSpec(s: string)
    ensures TrimEnd(s) == [] || !IsSpace(TrimEnd(s)[|TrimEnd(s)| - 1])
    ensures |TrimEnd(s)| <= |s| && TrimEnd(s) == s[..|TrimEnd(s)|]
    ensures forall k | |TrimEnd(s)| <= k < |s| :: IsSpace(s[k])
  {
    if s != [] && IsSpace(s[|s| - 1]) {
      TrimEndSpec(s[..|s| - 1]);
    }
  }

  /**
   * `s.trim()` is the infix of `s` left after dropping its leading and its
   * trailing white space: it sits at offset `i`, and everything before it
   * and after it is white space.
   */
  lemma TrimInfix(s: string)
    ensures var i := |s| - |TrimStart(s)|;
            0 <= i && i + |Trim(s)| <= |s| && Trim(s) == s[i..i + |Trim(s)|] &&
            (forall k | 0 <= k < i :: IsSpace(s[k])) &&
            (forall k | i + |Trim(s)| <= k < |s| :: IsSpace(s[k]))
  {
    var t := TrimStart(s);
    TrimStartSpec(s);
    TrimEndSpec(t);
    var i := |s| - |t|;
    var r := TrimEnd(t);
    assert t == s[i..];
    assert r == t[..|r|];
    assert r == s[i..i + |r|];
    forall k | i + |r| <= k < |s| ensures IsSpace(s[k]) {
      assert s[k] == t[k - i];
    }
  }

  /**
   * `s.trim()` is that infix, and it is the longest one: it neither starts
   * nor ends with white space. It is empty exactly when `s` is all white
   * space, and text without white space at either end is left unchanged.
   */
  lemma TrimSpec(s: string)
    ensures var i := |s| - |TrimStart(s)|;
            0 <= i && i + |Trim(s)| <= |s| && Trim(s) == s[i..i + |Trim(s)|] &&
            (forall k | 0 <= k < i :: IsSpace(s[k])) &&
            (forall k | i + |Trim(s)| <= k < |s| :: IsSpace(s[k]))
    ensures Trimmed(Trim(s))
    ensures Trim(s) == [] <==> forall k | 0 <= k < |s| :: IsSpace(s[k])
    ensures Trimmed(s) ==> Trim(s) == s
  {
    TrimInfix(s);
    var t := TrimStart(s);
    TrimStartSpec(s);
    TrimEndSpec(t);
    var r := Trim(s);
    if r != [] {
      assert r == t[..|r|];
      assert r[0] == t[0];
      assert !IsSpace(s[|s| - |t|]);
    }
    if Trimmed(s) && s != [] {
      assert t == s;
    }
  }

  /** Trimming twice is trimming once. */
  lemma TrimIdempotent(s: string)
    ensures Trim(Trim(s)) == Trim(s)
  {
    TrimSpec(s);
    TrimSpec(Trim(s));
  }

  /** `s.includes(sub)` for two strings: `sub` occurs contiguously in `s`. */
  predicate Includes(s: string, sub: string)
    decreases s
  {
    sub <= s || (s != [] && Includes(s[1..], sub))
  }

  /** `sub` sits in `s` at offset `i`. */
  predicate OccursAt(s: string, sub: string, i: int) {
    0 <= i <= |s| - |sub| && s[i..i + |sub|] == sub
  }

  /** `Includes` means what it says: `sub` occurs in `s` at some offset. */
  lemma {:induction false} IncludesAt(s: string, sub: string)
    ensures Includes(s, sub) <==> exists i :: OccursAt(s, sub, i)
    decreases s
  {
    if sub <= s {
      assert OccursAt(s, sub, 0);
    } else if s != [] {
      IncludesAt(s[1..], sub);
      if Includes(s[1..], sub) {
        var i :| OccursAt(s[1..], sub, i);
        assert OccursAt(s, sub, i + 1);
      }
      if exists i :: OccursAt(s, sub, i) {
        var i :| OccursAt(s, sub, i);
        assert i != 0;
        assert OccursAt(s[1..], sub, i - 1);
      }
    }
  }

  /** `parts.join(sep)`. */
  function Join(parts: seq<string>, sep: string): (r: string)
    ensures |parts| == 1 ==> r == parts[0]
  {
    if |parts| == 0 then ""
    else if |parts| == 1 then parts[0]
    else parts[0] + sep + Join(parts[1..], sep)
  }

  /** One more part is appended after a separator. */
  lemma {:induction false} JoinAppend(parts: seq<string>, p: string, sep: string)
    requires parts != []
    ensures Join(parts + [p], sep) == Join(parts, sep) + sep + p
    decreases |parts|
  {
    if |parts| > 1 {
      assert (parts + [p])[1..] == parts[1..] + [p];
      JoinAppend(parts[1..], p, sep);
    }
  }
}
