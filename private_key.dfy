/**
 * `formatPrivateKey` of db/firebaseAdmin.ts: a service-account key kept in an
 * environment variable has its line breaks written as the two characters
 * backslash and `n`; `key.replace(/\\n/g, "\n")` turns every such pair back
 * into a newline, scanning left to right.
 */
module PrivateKey {

  const Backslash: char := '\\'
  const Newline: char := '\n'

  /** `s` has a backslash immediately followed by 'n' at position i. */
  predicate PairAt(s: string, i: int)
  {
    0 <= i && i + 1 < |s| && s[i] == Backslash && s[i + 1] == 'n'
  }

  /** `s` contains no backslash-'n' pair anywhere. */
  predicate NoPair(s: string)
  {
    forall i :: 0 <= i < |s| - 1 ==> !PairAt(s, i)
  }

  /** Number of backslash-'n' pairs in `s` (two pairs never overlap, since 'n' is not a backslash). */
  function Pairs(s: string): nat
  {
    if |s| < 2 then 0
    else if PairAt(s, 0) then 1 + Pairs(s[2..])
    else Pairs(s[1..])
  }

  /** The global replace of db/firebaseAdmin.ts:13, scanning left to right. */
  function FormatPrivateKey(key: string): (r: string)
    ensures |r| == |key| - Pairs(key)
  {
    if |key| < 2 then key
    else if PairAt(key, 0) then [Newline] + FormatPrivateKey(key[2..])
    else [key[0]] + FormatPrivateKey(key[1..])
  }

  /** A backslash at the head of the output is an input backslash that did not start a pair. */
  lemma FormatHead(key: string)
    ensures var r := FormatPrivateKey(key);
            r != [] && r[0] == Backslash ==> key[0] == Backslash && !PairAt(key, 0)
  {
  }

  /** No backslash-'n' pair survives the replacement. */
  lemma {:induction false} FormatLeavesNoPair(key: string)
    ensures NoPair(FormatPrivateKey(key))
    decreases |key|
  {
    if |key| >= 2 {
      if PairAt(key, 0) {
        FormatLeavesNoPair(key[2..]);
        NoPairCons(Newline, FormatPrivateKey(key[2..]));
      } else {
        var rest := FormatPrivateKey(key[1..]);
        FormatLeavesNoPair(key[1..]);
        FormatHead(key[1..]);
        // a backslash that was not followed by 'n' is never followed by 'n' in the output
        assert key[0] == Backslash && rest != [] ==> rest[0] != 'n';
        NoPairCons(key[0], rest);
      }
    }
  }

  /**
   * The replacement works piecewise: a key cut anywhere except between the
   * two characters of a pair is formatted by formatting the two pieces.
   */
  lemma {:induction false} FormatSplit(a: string, b: string)
    requires !(a != [] && a[|a| - 1] == Backslash && b != [] && b[0] == 'n')
    ensures FormatPrivateKey(a + b) == FormatPrivateKey(a) + FormatPrivateKey(b)
    decreases |a|
  {
    if a == [] {
      assert a + b == b;
    } else if |a| == 1 {
      FormatSplitOne(a, b);
    } else if PairAt(a, 0) {
      FormatSplit(a[2..], b);
      FormatPairStep(a, b);
    } else {
      FormatSplit(a[1..], b);
      FormatPlainStep(a, b);
    }
  }

  /** FormatSplit for a one-character first piece. */
  lemma FormatSplitOne(a: string, b: string)
    requires |a| == 1 && !(a[0] == Backslash && b != [] && b[0] == 'n')
    ensures FormatPrivateKey(a + b) == FormatPrivateKey(a) + FormatPrivateKey(b)
  {
    var ab := a + b;
    if b == [] {
      assert ab == a;
    } else {
      assert ab[0] == a[0] && ab[1] == b[0] && ab[1..] == b;
    }
  }

  /** The scan over a + b when a starts with a pair. */
  lemma FormatPairStep(a: string, b: string)
    requires PairAt(a, 0)
    requires FormatPrivateKey(a[2..] + b) == FormatPrivateKey(a[2..]) + FormatPrivateKey(b)
    ensures FormatPrivateKey(a + b) == FormatPrivateKey(a) + FormatPrivateKey(b)
  {
    var ab := a + b;
    var x, y := FormatPrivateKey(a[2..]), FormatPrivateKey(b);
    assert PairAt(ab, 0);
    calc {
      FormatPrivateKey(ab);
      [Newline] + FormatPrivateKey(ab[2..]);
      { assert ab[2..] == a[2..] + b; }
      [Newline] + (x + y);
      { Associative([Newline], x, y); }
      ([Newline] + x) + y;
    }
  }

  /** The scan over a + b when a has two characters or more and does not start with a pair. */
  lemma FormatPlainStep(a: string, b: string)
    requires |a| >= 2 && !PairAt(a, 0)
    requires FormatPrivateKey(a[1..] + b) == FormatPrivateKey(a[1..]) + FormatPrivateKey(b)
    ensures FormatPrivateKey(a + b) == FormatPrivateKey(a) + FormatPrivateKey(b)
  {
    var ab := a + b;
    var x, y := FormatPrivateKey(a[1..]), FormatPrivateKey(b);
    assert ab[0] == a[0] && ab[1] == a[1];
    calc {
      FormatPrivateKey(ab);
      [a[0]] + FormatPrivateKey(ab[1..]);
      { assert ab[1..] == a[1..] + b; }
      [a[0]] + (x + y);
      { Associative([a[0]], x, y); }
      ([a[0]] + x) + y;
    }
  }

  /** Concatenation regroups freely; stated once so that the scans above need not rediscover it. */
  lemma Associative(x: string, y: string, z: string)
    ensures x + (y + z) == (x + y) + z
  {
  }

  /** Each backslash-'n' pair becomes one newline in its place, whatever surrounds it. */
  lemma PairBecomesNewline(a: string, b: string)
    ensures FormatPrivateKey(a + [Backslash, 'n'] + b) == FormatPrivateKey(a) + [Newline] + FormatPrivateKey(b)
  {
    var pb := [Backslash, 'n'] + b;
    var x := FormatPrivateKey(a);
    assert FormatPrivateKey(pb) == [Newline] + FormatPrivateKey(b) by {
      assert PairAt(pb, 0) && pb[2..] == b;
    }
    calc {
      FormatPrivateKey(a + [Backslash, 'n'] + b);
      { Associative(a, [Backslash, 'n'], b); }
      FormatPrivateKey(a + pb);
      { FormatSplit(a, pb); }
      x + ([Newline] + FormatPrivateKey(b));
      { Associative(x, [Newline], FormatPrivateKey(b)); }
      x + [Newline] + FormatPrivateKey(b);
    }
  }

  /** Putting one character in front keeps a pair-free string pair-free unless it makes a new pair. */
  lemma NoPairCons(c: char, rest: string)
    requires NoPair(rest)
    requires c == Backslash && rest != [] ==> rest[0] != 'n'
    ensures NoPair([c] + rest)
  {
    var s := [c] + rest;
    forall i | 0 <= i < |s| - 1 ensures !PairAt(s, i) {
      if i > 0 {
        assert !PairAt(rest, i - 1);
      }
    }
  }

  /** A key without any backslash-'n' pair comes back unchanged. */
  lemma {:induction false} FormatWithoutPairs(key: string)
    requires NoPair(key)
    ensures FormatPrivateKey(key) == key
  {
    if |key| >= 2 {
      assert !PairAt(key, 0);
      assert NoPair(key[1..]) by {
        forall i | 0 <= i < |key[1..]| - 1 ensures !PairAt(key[1..], i) {
          assert !PairAt(key, i + 1);
        }
      }
      FormatWithoutPairs(key[1..]);
    }
  }

  /** Applying the replacement twice is the same as applying it once. */
  lemma FormatIdempotent(key: string)
    ensures FormatPrivateKey(FormatPrivateKey(key)) == FormatPrivateKey(key)
  {
    FormatLeavesNoPair(key);
    FormatWithoutPairs(FormatPrivateKey(key));
  }

  /** How such a key is written into an environment variable: each newline becomes backslash, 'n', leaving one line of text. */
  function Escape(s: string): (r: string)
    ensures |r| >= |s|
    ensures Newline !in r
    ensures s != [] ==> r[0] == (if s[0] == Newline then Backslash else s[0])
  {
    if s == [] then []
    else
      (if s[0] == Newline then [Backslash, 'n'] else [s[0]]) + Escape(s[1..])
  }

  /** Escaping works one character at a time. */
  lemma EscapeCons(c: char, rest: string)
    ensures Escape([c] + rest) == (if c == Newline then [Backslash, 'n'] else [c]) + Escape(rest)
  {
    var s := [c] + rest;
    assert s[0] == c && s[1..] == rest;
  }

  /**
   * Every character other than a replaced pair keeps its place and order:
   * escaping the newlines again restores the input, provided the input had no
   * newline of its own to confuse with a replaced pair.
   */
  lemma {:induction false} EscapeUndoesFormat(key: string)
    requires Newline !in key
    ensures Escape(FormatPrivateKey(key)) == key
  {
    if |key| >= 2 {
      if PairAt(key, 0) {
        var tail := key[2..];
        EscapeUndoesFormat(tail);
        EscapeCons(Newline, FormatPrivateKey(tail));
        assert key == [Backslash, 'n'] + tail;
      } else {
        var tail := key[1..];
        assert key[0] in key;
        EscapeUndoesFormat(tail);
        EscapeCons(key[0], FormatPrivateKey(tail));
        assert key == [key[0]] + tail;
      }
    } else if |key| == 1 {
      assert key[0] in key;
      EscapeCons(key[0], []);
      assert key == [key[0]] + [];
    }
  }

  /** Conversely, formatting an escaped text restores it, unless the text already held a backslash-'n' pair. */
  lemma {:induction false} FormatUndoesEscape(s: string)
    requires NoPair(s)
    ensures FormatPrivateKey(Escape(s)) == s
  {
    if s != [] {
      var tail := s[1..];
      assert NoPair(tail) by {
        forall i | 0 <= i < |tail| - 1 ensures !PairAt(tail, i) {
          assert !PairAt(s, i + 1);
        }
      }
      FormatUndoesEscape(tail);
      var et := Escape(tail);
      assert s == [s[0]] + tail;
      EscapeCons(s[0], tail);
      var e := Escape(s);
      if s[0] == Newline {
        assert e == [Backslash, 'n'] + et;
        assert PairAt(e, 0) && e[2..] == et;
      } else if tail == [] {
        assert e == [s[0]];
      } else {
        assert e == [s[0]] + et;
        assert e[1..] == et;
        assert !PairAt(e, 0) by {
          if s[0] == Backslash {
            assert !PairAt(s, 0);
          }
        }
      }
    }
  }
}
