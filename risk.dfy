/**
 * Classification of method-call results and stores that must never be
 * reported: the fixed class and method tables, the three case-insensitive
 * name patterns, the void-return short-circuit and the risky declared type.
 *
 * The patterns `.*serial.*`, `.*\.read[^.]*` and `.*\.create[^.]*` are
 * compiled with CASE_INSENSITIVE only, so letters fold in US-ASCII alone,
 * `.` matches any character except a line terminator and `[^.]` any
 * character except a dot. Each pattern is stated twice: as the shape a
 * whole-string match must have (the `Matches...` predicates) and as the
 * scan the model performs (`SerialPattern`, `DotWordPattern`); lemmas prove
 * the two agree on every key.
 */
module Risk {
  import opened Common

  /** Declaring classes whose call results are always risky. */
  const DangerousClassSources: set<string> := {
    "java/io/BufferedInputStream",
    "java/io/DataInput",
    "java/io/DataInputStream",
    "java/io/InputStream",
    "java/io/ObjectInputStream",
    "java/io/BufferedReader",
    "java/io/FileReader",
    "java/io/Reader",
    "javax/nio/channels/Channel",
    "io/netty/channel/Channel"
  }

  /** `class.name+signature` keys of calls whose results are always risky. */
  const DangerousMethodSources: set<string> := {
    "java/lang/System.currentTimeMillis()J",
    "java/lang/System.nanoTime()J",
    "java/util/Calendar.get(I)I",
    "java/util/GregorianCalendar.get(I)I",
    "java/util/Iterator.next()Ljava/lang/Object;",
    "java/util/regex/Matcher.start()I",
    "java/util/concurrent/TimeUnit.toMillis(J)J"
  }

  /** Declared local-variable types whose stores are never reported. */
  const DangerousStoreClassSigs: set<string> := {"Ljava/util/concurrent/Future;"}

  /** The constant-pool operands of an invoke instruction. */
  datatype MethodRef = MethodRef(cls: string, name: string, sig: string)

  /** The key the tables and patterns are matched against. */
  function CallKey(m: MethodRef): string
  {
    m.cls + "." + m.name + m.sig
  }

  /** `String.endsWith("V")` on the signature: the call pushes no value. */
  predicate ReturnsVoid(sig: string)
  {
    |sig| > 0 && sig[|sig| - 1] == 'V'
  }

  /** The `wasNull()Z` call that switches reporting off for the whole method. */
  predicate IsWasNullCall(m: MethodRef)
  {
    m.name == "wasNull" && m.sig == "()Z"
  }

  /** The declared type of the stored register, looked up in the local variable table, is a Future. */
  predicate IsRiskyStoreClass(declaredSig: Option<string>)
  {
    declaredSig.Some? && declaredSig.value in DangerousStoreClassSigs
  }

  // ---------------------------------------------------------------------
  // Characters and case folding
  // ---------------------------------------------------------------------

  function AsciiLower(c: char): char
  {
    if 'A' <= c <= 'Z' then (c as int + 32) as char else c
  }

  predicate EqualsIgnoreCase(s: string, t: string)
  {
    |s| == |t| && forall i :: 0 <= i < |s| ==> AsciiLower(s[i]) == AsciiLower(t[i])
  }

  predicate StartsWithIgnoreCase(s: string, w: string)
  {
    |w| <= |s| && EqualsIgnoreCase(s[..|w|], w)
  }

  /** The characters regex `.` refuses when DOTALL is not set. */
  predicate IsLineTerminator(c: char)
  {
    c == '\n' || c == '\r' || c == '\U{85}' || c == '\U{2028}' || c == '\U{2029}'
  }

  predicate NoLineTerminator(s: string)
  {
    forall i :: 0 <= i < |s| ==> !IsLineTerminator(s[i])
  }

  predicate NoDot(s: string)
  {
    forall i :: 0 <= i < |s| ==> s[i] != '.'
  }

  /** A word made of ASCII lower-case letters: what the patterns spell. */
  predicate LowerWord(w: string)
  {
    forall i :: 0 <= i < |w| ==> 'a' <= w[i] <= 'z'
  }

  // ---------------------------------------------------------------------
  // The patterns as whole-string match shapes
  // ---------------------------------------------------------------------

  /** `word` occurs, ignoring case, at position `i` of `s`. */
  predicate OccursAt(s: string, word: string, i: int)
  {
    0 <= i && i + |word| <= |s| && EqualsIgnoreCase(s[i..i + |word|], word)
  }

  /** `key` splits as `x + word + y` with `x` and `y` matched by `.*`. */
  ghost predicate AnyWordAnySplit(key: string, word: string, i: int)
  {
    OccursAt(key, word, i) && NoLineTerminator(key[..i]) && NoLineTerminator(key[i + |word|..])
  }

  /** `key` splits as `x + "." + word + y` with `x` matched by `.*` and `y` by `[^.]*`. */
  ghost predicate DotWordSplit(key: string, word: string, i: int)
  {
    0 <= i < |key| && key[i] == '.' && OccursAt(key, word, i + 1)
      && NoLineTerminator(key[..i]) && NoDot(key[i + 1 + |word|..])
  }

  /** `key` matches `.*word.*` (the serial pattern when word is "serial"). */
  ghost predicate MatchesAnyWordAny(key: string, word: string)
  {
    exists i :: AnyWordAnySplit(key, word, i)
  }

  /** `key` matches `.*\.word[^.]*` (the read and create patterns). */
  ghost predicate MatchesDotWord(key: string, word: string)
  {
    exists i :: DotWordSplit(key, word, i)
  }

  // ---------------------------------------------------------------------
  // The patterns as scans
  // ---------------------------------------------------------------------

  function ContainsIgnoreCase(s: string, w: string): (b: bool)
    ensures b <==> exists i :: OccursAt(s, w, i)
    decreases |s|
  {
    if |s| < |w| then false
    else if StartsWithIgnoreCase(s, w) then
      assert OccursAt(s, w, 0) by { assert s[0..0 + |w|] == s[..|w|]; }
      true
    else
      var rest := ContainsIgnoreCase(s[1..], w);
      assert rest ==> exists i :: OccursAt(s, w, i) by {
        if rest {
          var k :| OccursAt(s[1..], w, k);
          TailSlice(s, k, |w|);
          assert OccursAt(s, w, k + 1);
        }
      }
      assert (exists i :: OccursAt(s, w, i)) ==> rest by {
        if exists i :: OccursAt(s, w, i) {
          var k :| OccursAt(s, w, k);
          assert k != 0 by { assert s[..|w|] == s[0..0 + |w|]; }
          TailSlice(s, k - 1, |w|);
          assert OccursAt(s[1..], w, k - 1);
        }
      }
      rest
  }

  /** A slice of the tail is the slice one place further on. */
  lemma TailSlice(s: string, k: int, n: int)
    requires 0 <= k && 0 <= n && k + n + 1 <= |s|
    ensures s[1..][k..k + n] == s[k + 1..k + 1 + n]
  {
    var a := s[1..][k..k + n];
    var b := s[k + 1..k + 1 + n];
    forall j | 0 <= j < n
      ensures a[j] == b[j]
    {
    }
  }

  /** Position of the last '.' in `s`, as `String.lastIndexOf('.')` would find it. */
  function LastIndexOfDot(s: string): (r: Option<nat>)
    ensures r.None? ==> NoDot(s)
    ensures r.Some? ==> r.value < |s| && s[r.value] == '.' && NoDot(s[r.value + 1..])
  {
    if |s| == 0 then None
    else if s[|s| - 1] == '.' then Some(|s| - 1)
    else
      var r := LastIndexOfDot(s[..|s| - 1]);
      assert r.Some? ==> s[r.value + 1..] == s[..|s| - 1][r.value + 1..] + [s[|s| - 1]];
      r
  }

  predicate SerialPattern(key: string)
  {
    NoLineTerminator(key) && ContainsIgnoreCase(key, "serial")
  }

  predicate DotWordPattern(key: string, word: string)
  {
    match LastIndexOfDot(key)
    case None => false
    case Some(j) => NoLineTerminator(key[..j]) && StartsWithIgnoreCase(key[j + 1..], word)
  }

  /** A character that folds onto a lower-case letter is neither a dot nor a line terminator. */
  lemma FoldsToLetter(c: char, l: char)
    requires 'a' <= l <= 'z' && AsciiLower(c) == AsciiLower(l)
    ensures c != '.' && !IsLineTerminator(c)
  {
  }

  /** No character of an occurrence of a lower-case word is a dot or a line terminator. */
  lemma OccurrenceIsPlain(s: string, word: string, i: int, k: int)
    requires LowerWord(word) && OccursAt(s, word, i) && i <= k < i + |word|
    ensures s[k] != '.' && !IsLineTerminator(s[k])
  {
    assert s[k] == s[i..i + |word|][k - i];
    FoldsToLetter(s[k], word[k - i]);
  }

  /** The serial scan accepts exactly the keys that match `.*word.*`. */
  lemma {:induction false} SerialPatternMatches(key: string, word: string)
    requires LowerWord(word)
    ensures (NoLineTerminator(key) && ContainsIgnoreCase(key, word)) <==> MatchesAnyWordAny(key, word)
  {
    if NoLineTerminator(key) && ContainsIgnoreCase(key, word) {
      var i :| OccursAt(key, word, i);
      assert AnyWordAnySplit(key, word, i);
    }
    if MatchesAnyWordAny(key, word) {
      var i :| AnyWordAnySplit(key, word, i);
      forall k | 0 <= k < |key| ensures !IsLineTerminator(key[k]) {
        if k < i {
          assert key[k] == key[..i][k];
        } else if k < i + |word| {
          OccurrenceIsPlain(key, word, i, k);
        } else {
          assert key[k] == key[i + |word|..][k - i - |word|];
        }
      }
      assert ContainsIgnoreCase(key, word);
    }
  }

  /** A dot-word split can only sit at the last dot of the key. */
  lemma SplitAtLastDot(key: string, word: string, i: int, j: nat)
    requires LowerWord(word) && DotWordSplit(key, word, i)
    requires j < |key| && key[j] == '.' && NoDot(key[j + 1..])
    ensures i == j
  {
    if i < j && j < i + 1 + |word| {
      OccurrenceIsPlain(key, word, i + 1, j);
    }
  }

  /** The last-dot scan accepts exactly the keys that match `.*\.word[^.]*`. */
  lemma {:induction false} DotWordPatternMatches(key: string, word: string)
    requires LowerWord(word)
    ensures DotWordPattern(key, word) <==> MatchesDotWord(key, word)
  {
    var n := |word|;
    match LastIndexOfDot(key)
    case None =>
    case Some(j) =>
      if DotWordPattern(key, word) {
        assert key[j + 1..][..n] == key[j + 1..j + 1 + n];
        var tail := key[j + 1 + n..];
        forall k | 0 <= k < |tail| ensures tail[k] != '.' {
          assert tail[k] == key[j + 1..][n + k];
        }
        assert DotWordSplit(key, word, j);
      }
      if MatchesDotWord(key, word) {
        var i :| DotWordSplit(key, word, i);
        SplitAtLastDot(key, word, i, j);
        assert key[j + 1..][..n] == key[j + 1..j + 1 + n];
      }
  }

  /**
   * A non-void call result is risky when its class is in the class table,
   * its key is in the method table, or its key matches one of the three
   * case-insensitive patterns.
   */
  function IsRiskyMethodCall(m: MethodRef): (risky: bool)
    ensures risky <==>
      || m.cls in DangerousClassSources
      || CallKey(m) in DangerousMethodSources
      || MatchesAnyWordAny(CallKey(m), "serial")
      || MatchesDotWord(CallKey(m), "read")
      || MatchesDotWord(CallKey(m), "create")
  {
    var key := CallKey(m);
    SerialPatternMatches(key, "serial");
    DotWordPatternMatches(key, "read");
    DotWordPatternMatches(key, "create");
    if m.cls in DangerousClassSources then true
    else if key in DangerousMethodSources then true
    else SerialPattern(key) || DotWordPattern(key, "read") || DotWordPattern(key, "create")
  }

  /** `System.currentTimeMillis()J` is in the risky method set, so a stored timestamp is never reported. */
  lemma {:induction false} CurrentTimeMillisIsRisky()
    ensures IsRiskyMethodCall(MethodRef("java/lang/System", "currentTimeMillis", "()J"))
  {
    assert CallKey(MethodRef("java/lang/System", "currentTimeMillis", "()J"))
      == "java/lang/System.currentTimeMillis()J";
  }

  /** The read pattern looks only after the last dot, so a class named `reader` does not match. */
  lemma {:induction false} ReaderClassIsNotRead()
    ensures !MatchesDotWord("x/reader.get()I", "read")
  {
    var neg := "x/reader.get()I";
    assert neg[8] == '.';
    assert neg[9..] == "get()I";
    assert !OccursAt(neg, "read", 9) by {
      assert neg[9..13] == "get(";
      assert AsciiLower(neg[9..13][0]) != AsciiLower("read"[0]);
    }
    assert neg[..8] == "x/reader" && NoDot(neg[..8]);
    assert NoDot(neg[9..]);
    forall i ensures !DotWordSplit(neg, "read", i) {
      if 0 <= i < 8 {
        assert neg[i] == neg[..8][i];
      } else if 9 <= i < |neg| {
        assert neg[i] == neg[9..][i - 9];
      }
    }
  }

  /** Case is ignored after the last dot. */
  lemma {:induction false} UpperCaseReadMatches()
    ensures MatchesDotWord("java/Foo.READLine()I", "read")
  {
    var pos := "java/Foo.READLine()I";
    assert pos[9..13] == "READ";
    assert pos[13..] == "Line()I";
    assert pos[..8] == "java/Foo";
    assert DotWordSplit(pos, "read", 8);
  }
}
