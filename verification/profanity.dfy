/** The sensitive-word filter (profanity/profanity.go): a character trie
    built from a word list, and a left-to-right scan that replaces each
    matched word with `*`, ignoring punctuation and spaces while matching.

    The trie of nested maps is kept flat: a node is the path of characters
    that leads to it from the root, mapped to its `isEnd` flag. The root is
    the empty path and is not stored. */
module Profanity {

  type Trie = map<seq<char>, bool>

  /** The characters ignored while matching: the entries of the
      comma-separated `InvalidWords` list (the comma itself separates them
      and is not one; the empty last entry never equals a character). */
  const InvalidChars: set<char> :=
    {' ', '~', '!', '@', '#', '$', '%', '^', '&', '*', '(', ')', '_', '-', '+', '=', '?', '<', '>', '.',
     '\U{2014}', '\U{FF0C}', '\U{3002}', '/', '\\', '|', '\U{300A}', '\U{300B}', '\U{FF1F}', ';', ':',
     '\U{FF1A}', '\'', '\U{2018}', '\U{FF1B}', '\U{201C}'}

  /** The replacement character (rune 42). */
  const Star: char := '*'

  // ----------------------------------------------------------------- build

  /** The non-empty prefixes of `w`: the nodes its walk passes through. */
  function Prefixes(w: seq<char>): set<seq<char>> {
    set i | 1 <= i <= |w| :: w[..i]
  }

  /** The non-empty prefixes of every word of `words`. */
  function AllPrefixes(words: set<seq<char>>): set<seq<char>> {
    set w, i | w in words && 1 <= i <= |w| :: w[..i]
  }

  /** The trie `t` with the words `words` added: their prefixes become
      nodes, new ones not ending a word; every non-empty word ends one. */
  function Built(t: Trie, words: set<seq<char>>): Trie {
    map p | p in t.Keys + AllPrefixes(words) :: (p in t && t[p]) || (p in words && p != [])
  }

  /** The inner loop of `AddSensitiveToMap` for one word, from character `i`
      on: create each missing node with `isEnd` false, and set the last
      node's flag. */
  function Walk(t: Trie, w: seq<char>, i: nat): Trie
    requires i <= |w|
    decreases |w| - i
  {
    if i == |w| then t
    else
      var p := w[..i + 1];
      var t1 := if p in t then t else t[p := false];
      var t2 := if i == |w| - 1 then t1[p := true] else t1;
      Walk(t2, w, i + 1)
  }

  /** The prefixes of `w` longer than `i`. */
  function PrefixesFrom(w: seq<char>, i: nat): set<seq<char>> {
    set j | i < j <= |w| :: w[..j]
  }

  lemma {:induction false} PrefixesFromStep(w: seq<char>, i: nat)
    requires i < |w|
    ensures PrefixesFrom(w, i) == {w[..i + 1]} + PrefixesFrom(w, i + 1)
  {
    forall q | q in PrefixesFrom(w, i) ensures q in {w[..i + 1]} + PrefixesFrom(w, i + 1) {
      var j :| i < j <= |w| && q == w[..j];
      if j > i + 1 { assert q in PrefixesFrom(w, i + 1); }
    }
  }

  /** Adding one word: the walk from the root. */
  function AddWord(t: Trie, w: seq<char>): (t': Trie)
    ensures t'.Keys == t.Keys + Prefixes(w)
    ensures forall q | q in t' :: t'[q] == ((q in t && t[q]) || (q == w && w != []))
  {
    WalkAddsWord(t, w, 0);
    assert PrefixesFrom(w, 0) == Prefixes(w);
    Walk(t, w, 0)
  }

  /** The walk from character `i` adds the prefixes longer than `i` and sets
      the flag of the whole word when it takes at least one step. */
  lemma {:induction false} WalkAddsWord(t: Trie, w: seq<char>, i: nat)
    requires i <= |w|
    ensures Walk(t, w, i).Keys == t.Keys + PrefixesFrom(w, i)
    ensures forall q | q in Walk(t, w, i) :: Walk(t, w, i)[q] == ((q in t && t[q]) || (q == w && i < |w|))
    decreases |w| - i
  {
    if i == |w| {
      assert PrefixesFrom(w, i) == {};
    } else {
      var p := w[..i + 1];
      var t1 := if p in t then t else t[p := false];
      var t2 := if i == |w| - 1 then t1[p := true] else t1;
      WalkAddsWord(t2, w, i + 1);
      PrefixesFromStep(w, i);
      assert Walk(t, w, i) == Walk(t2, w, i + 1);
      forall q | q in Walk(t, w, i)
        ensures Walk(t, w, i)[q] == ((q in t && t[q]) || (q == w && i < |w|))
      {
        if q == p && i == |w| - 1 {
          assert q == w;
        } else if q == p {
          assert |q| < |w|;
        }
      }
    }
  }

  /** One more word adds its own prefixes. */
  lemma {:induction false} AllPrefixesAdd(words: set<seq<char>>, w: seq<char>)
    ensures AllPrefixes(words + {w}) == AllPrefixes(words) + Prefixes(w)
  {
    forall q | q in AllPrefixes(words + {w}) ensures q in AllPrefixes(words) + Prefixes(w) {
      var v, i :| v in words + {w} && 1 <= i <= |v| && q == v[..i];
      if v != w { assert q in AllPrefixes(words); }
    }
    forall q | q in Prefixes(w) ensures q in AllPrefixes(words + {w}) {
      var j :| 1 <= j <= |w| && q == w[..j];
      assert w in words + {w};
    }
  }

  /** Adding one word to a built trie builds the trie of one more word. */
  lemma {:induction false} AddWordBuilds(t: Trie, words: set<seq<char>>, w: seq<char>)
    ensures AddWord(Built(t, words), w) == Built(t, words + {w})
  {
    var b := Built(t, words);
    var b' := Built(t, words + {w});
    var a := AddWord(b, w);
    AllPrefixesAdd(words, w);
    assert a.Keys == b'.Keys;
    forall q | q in b' ensures a[q] == b'[q] {
      if q !in b && q != w {
        assert q in Prefixes(w);
        assert q != [] && q[..|q|] == q;
      }
    }
  }

  /** `AddSensitiveToMap`: add every word of `words`, in whatever order the
      map iteration yields them. The result does not depend on the order. */
  method AddSensitiveToMap(t: Trie, words: set<seq<char>>) returns (t': Trie)
    ensures t' == Built(t, words)
  {
    t' := t;
    var todo := words;
    var done: set<seq<char>> := {};
    assert Built(t, {}) == t;
    while todo != {}
      invariant done + todo == words && done !! todo
      invariant t' == Built(t, done)
      decreases |todo|
    {
      var w :| w in todo;
      AddWordBuilds(t, done, w);
      t' := AddWord(t', w);
      done := done + {w};
      todo := todo - {w};
    }
  }

  /** Every added word is a path from the root ending at a node marked as a
      word's end; every other node keeps or gains a prefix of a word. */
  lemma {:induction false} BuiltHoldsWords(t: Trie, words: set<seq<char>>)
    ensures forall w | w in words && w != [] :: w in Built(t, words) && Built(t, words)[w]
    ensures forall w | w in words :: forall i | 1 <= i <= |w| :: w[..i] in Built(t, words)
    ensures forall p | p in Built(t, words) && Built(t, words)[p] :: (p in t && t[p]) || p in words
  {
    forall w | w in words && w != [] ensures w in Built(t, words) {
      assert w[..|w|] == w;
    }
  }

  // ------------------------------------------------------------------ scan

  /** A run of `n` stars. */
  function Stars(n: nat): (r: seq<char>)
    ensures |r| == n && forall k | 0 <= k < n :: r[k] == Star
  {
    seq(n, _ => Star)
  }

  /** The text with positions `from` to `to` (exclusive) replaced by stars. */
  function StarOut(str: seq<char>, from: nat, to: nat): (r: seq<char>)
    requires from <= to <= |str|
    ensures |r| == |str|
    ensures forall k | 0 <= k < |r| :: r[k] == (if from <= k < to then Star else str[k])
  {
    str[..from] + Stars(to - from) + str[to..]
  }

  /** The scan loop of `ChangeSensitiveWords` from index `i`. `path` is the
      current trie node (the characters matched so far) and `start` the
      index of the first of them, or -1 when nothing is matched. A
      character that extends the path to a word's end stars everything from
      `start` through it and restarts at the root; one that does not extend
      it abandons the partial match and resumes two past `start`. */
  function Scan(t: Trie, str: seq<char>, i: nat, path: seq<char>, start: int): (r: seq<char>)
    requires i <= |str|
    requires start == -1 <==> path == []
    requires start != -1 ==> 0 <= start < i
    ensures |r| == |str|
    decreases |str| - (if start == -1 then i else start), |str| - i
  {
    if i == |str| then str
    else
      var c := str[i];
      if c in InvalidChars then Scan(t, str, i + 1, path, start)
      else if path + [c] in t then
        var first := if start == -1 then i else start;
        if t[path + [c]] then
          Scan(t, StarOut(str, first, i + 1), i + 1, [], -1)
        else Scan(t, str, i + 1, path + [c], first)
      else if start != -1 then Scan(t, str, start + 2, [], -1)
      else Scan(t, str, i + 1, [], -1)
  }

  /** The characters of `s` the scan looks at: those not ignored. */
  function Visible(s: seq<char>): seq<char> {
    if s == [] then []
    else Visible(s[..|s| - 1]) + (if s[|s| - 1] in InvalidChars then [] else [s[|s| - 1]])
  }

  /** The text from `a` to `b` (exclusive) is a match: it starts and ends on
      a character that is not ignored, and its other characters spell a
      word of the trie. */
  predicate Spells(t: Trie, str: seq<char>, a: int, b: int) {
    && 0 <= a < b <= |str|
    && str[a] !in InvalidChars && str[b - 1] !in InvalidChars
    && Visible(str[a..b]) in t && t[Visible(str[a..b])]
  }

  /** Position `k` lies inside a match that starts at or after `lo`. */
  ghost predicate InWordSpan(t: Trie, str: seq<char>, k: int, lo: int) {
    exists a, b | lo <= a <= k < b :: Spells(t, str, a, b)
  }

  /** Every proper prefix of `w` is an inner node that ends no word, so a
      match of `w` cannot stop early. */
  predicate NoShorterWord(t: Trie, w: seq<char>) {
    forall n | 1 <= n < |w| :: w[..n] in t && !t[w[..n]]
  }

  /** `ChangeSensitiveWords`: scan from the root at index 0. Every
      character it changes becomes a star and lies inside a match. */
  function ChangeSensitiveWords(t: Trie, txt: seq<char>): (r: seq<char>)
    ensures |r| == |txt|
    ensures forall k | 0 <= k < |r| :: r[k] == txt[k] || r[k] == Star
    ensures forall k | 0 <= k < |r| && r[k] != txt[k] :: InWordSpan(t, txt, k, 0)
  {
    ScanStarsOnlyWords(t, txt, 0, [], -1);
    Scan(t, txt, 0, [], -1)
  }

  // ------------------------------------------------------- visible text

  /** One more character extends the visible text when it is not ignored. */
  lemma {:induction false} VisibleStep(str: seq<char>, a: nat, i: nat)
    requires a <= i < |str|
    ensures Visible(str[a..i + 1]) == Visible(str[a..i]) + (if str[i] in InvalidChars then [] else [str[i]])
  {
    assert str[a..i + 1][..i - a] == str[a..i];
  }

  /** The visible text of a concatenation is the concatenation of the
      visible texts. */
  lemma {:induction false} VisibleSplit(s: seq<char>, k: nat)
    requires k <= |s|
    ensures Visible(s) == Visible(s[..k]) + Visible(s[k..])
    decreases |s|
  {
    if k < |s| {
      var init := s[..|s| - 1];
      VisibleSplit(init, k);
      assert init[..k] == s[..k];
      assert s[k..][..|s| - k - 1] == init[k..];
    } else {
      assert s[..k] == s && s[k..] == [];
    }
  }

  /** The same, for a span of the text cut at `i`. */
  lemma {:induction false} VisibleSplitAt(str: seq<char>, a: nat, i: nat, b: nat)
    requires a <= i <= b <= |str|
    ensures Visible(str[a..b]) == Visible(str[a..i]) + Visible(str[i..b])
  {
    VisibleSplit(str[a..b], i - a);
    assert str[a..b][..i - a] == str[a..i];
    assert str[a..b][i - a..] == str[i..b];
  }

  /** A span ending on a character that is not ignored shows something. */
  lemma {:induction false} VisibleEndsWith(str: seq<char>, a: nat, b: nat)
    requires a < b <= |str| && str[b - 1] !in InvalidChars
    ensures |Visible(str[a..b])| >= 1
  {
    VisibleStep(str, a, b - 1);
  }

  /** A text without ignored characters is all visible. */
  lemma {:induction false} VisibleOfPlain(s: seq<char>)
    requires forall k | 0 <= k < |s| :: s[k] !in InvalidChars
    ensures Visible(s) == s
    decreases |s|
  {
    if s != [] {
      VisibleOfPlain(s[..|s| - 1]);
    }
  }

  // -------------------------------------------------- steps of the scan

  /** An ignored character is passed over, the match kept as it is. */
  lemma {:induction false} ScanSkipsIgnored(t: Trie, str: seq<char>, i: nat, path: seq<char>, start: int)
    requires i < |str| && str[i] in InvalidChars
    requires start == -1 <==> path == []
    requires start != -1 ==> 0 <= start < i
    ensures Scan(t, str, i, path, start) == Scan(t, str, i + 1, path, start)
  {
  }

  /** A character that does not extend a partial match abandons it, and
      the scan resumes at the root two past the match's first character. */
  lemma {:induction false} ScanAbandonsMatch(t: Trie, str: seq<char>, i: nat, path: seq<char>, start: int)
    requires i < |str| && str[i] !in InvalidChars
    requires path != [] && 0 <= start < i
    requires path + [str[i]] !in t
    ensures Scan(t, str, i, path, start) == Scan(t, str, start + 2, [], -1)
  {
  }

  /** At the root, a character that begins no word is passed over. */
  lemma {:induction false} ScanMissesAtRoot(t: Trie, str: seq<char>, i: nat)
    requires i < |str| && str[i] !in InvalidChars && [str[i]] !in t
    ensures Scan(t, str, i, [], -1) == Scan(t, str, i + 1, [], -1)
  {
    assert [] + [str[i]] == [str[i]];
  }

  /** At the root, characters that are ignored or begin no word change
      nothing. */
  lemma {:induction false} ScanSkipsNonStarts(t: Trie, str: seq<char>, i: nat, j: nat)
    requires i <= j <= |str|
    requires forall k | i <= k < j :: str[k] in InvalidChars || [str[k]] !in t
    ensures Scan(t, str, i, [], -1) == Scan(t, str, j, [], -1)
    decreases j - i
  {
    if i < j {
      if str[i] in InvalidChars {
        ScanSkipsIgnored(t, str, i, [], -1);
      } else {
        ScanMissesAtRoot(t, str, i);
      }
      ScanSkipsNonStarts(t, str, i + 1, j);
    }
  }

  /** No character from `i` on begins a word: the scan changes nothing. */
  lemma {:induction false} ScanWithoutFirstChars(t: Trie, str: seq<char>, i: nat)
    requires i <= |str|
    requires forall k | i <= k < |str| :: [str[k]] !in t
    ensures Scan(t, str, i, [], -1) == str
  {
    ScanSkipsNonStarts(t, str, i, |str|);
  }

  /** With an empty word list the text comes back unchanged. */
  lemma {:induction false} EmptyTrieKeepsText(txt: seq<char>)
    ensures ChangeSensitiveWords(map[], txt) == txt
  {
    ScanWithoutFirstChars(map[], txt, 0);
  }

  // ------------------------------------------------------------ matches

  /** A match met at the root, whose word no shorter word cuts short, is
      starred from its first to its last character, ignored characters
      in between included, and the scan restarts right after it. */
  lemma {:induction false} ScanStarsWord(t: Trie, str: seq<char>, at: nat, e: nat)
    requires Spells(t, str, at, e) && NoShorterWord(t, Visible(str[at..e]))
    ensures Scan(t, str, at, [], -1) == Scan(t, StarOut(str, at, e), e, [], -1)
  {
    var c := str[at];
    var w := Visible(str[at..e]);
    VisibleStep(str, at, at);
    assert str[at..at] == [];
    assert Visible(str[at..at + 1]) == [c];
    VisibleSplitAt(str, at, at + 1, e);
    assert [] + [c] == [c];
    if at + 1 == e {
      assert str[e..e] == [];
      ScanEndsMatch(t, str, at, [], -1);
    } else {
      VisibleEndsWith(str, at + 1, e);
      assert w[..1] == [c];
      ScanExtendsMatch(t, str, at, [], -1);
      ScanStarsRest(t, str, at, e, at + 1);
    }
  }

  /** The same, once the match has reached position `i`. */
  lemma {:induction false} ScanStarsRest(t: Trie, str: seq<char>, at: nat, e: nat, i: nat)
    requires Spells(t, str, at, e) && NoShorterWord(t, Visible(str[at..e]))
    requires at < i < e && Visible(str[at..i]) != []
    ensures Scan(t, str, i, Visible(str[at..i]), at) == Scan(t, StarOut(str, at, e), e, [], -1)
    decreases e - i, 1
  {
    var path := Visible(str[at..i]);
    if str[i] in InvalidChars {
      VisibleStep(str, at, i);
      assert path + [] == path;
      ScanSkipsIgnored(t, str, i, path, at);
      ScanStarsRest(t, str, at, e, i + 1);
      assert Scan(t, str, i + 1, path, at) == Scan(t, StarOut(str, at, e), e, [], -1);
    } else if i + 1 == e {
      ScanStarsEnd(t, str, at, e, i);
    } else {
      ScanStarsExtend(t, str, at, e, i);
    }
  }

  /** Within a match, the visible text up to a character that is not
      ignored is the visible text before it plus that character; when the
      match goes on past it, that is a proper prefix of the match's visible
      text. */
  lemma {:induction false} VisibleInMatch(str: seq<char>, at: nat, i: nat, e: nat)
    requires at <= i < e <= |str| && str[i] !in InvalidChars && str[e - 1] !in InvalidChars
    ensures Visible(str[at..i + 1]) == Visible(str[at..i]) + [str[i]]
    ensures i + 1 < e ==> |Visible(str[at..i + 1])| < |Visible(str[at..e])|
    ensures i + 1 < e ==> Visible(str[at..e])[..|Visible(str[at..i + 1])|] == Visible(str[at..i + 1])
  {
    VisibleStep(str, at, i);
    if i + 1 < e {
      VisibleSplitAt(str, at, i + 1, e);
      VisibleEndsWith(str, i + 1, e);
    }
  }

  /** The step of `ScanStarsRest` at the match's last character. */
  lemma {:induction false} ScanStarsEnd(t: Trie, str: seq<char>, at: nat, e: nat, i: nat)
    requires Spells(t, str, at, e)
    requires at < i && i + 1 == e && Visible(str[at..i]) != []
    ensures Scan(t, str, i, Visible(str[at..i]), at) == Scan(t, StarOut(str, at, e), e, [], -1)
  {
    var path := Visible(str[at..i]);
    VisibleInMatch(str, at, i, e);
    ScanEndsMatch(t, str, i, path, at);
  }

  /** The step of `ScanStarsRest` at a character inside the match that is
      not ignored. */
  lemma {:induction false} ScanStarsExtend(t: Trie, str: seq<char>, at: nat, e: nat, i: nat)
    requires Spells(t, str, at, e) && NoShorterWord(t, Visible(str[at..e]))
    requires at < i && i + 1 < e && Visible(str[at..i]) != [] && str[i] !in InvalidChars
    ensures Scan(t, str, i, Visible(str[at..i]), at) == Scan(t, StarOut(str, at, e), e, [], -1)
    decreases e - i, 0
  {
    var path := Visible(str[at..i]);
    var next := Visible(str[at..i + 1]);
    VisibleInMatch(str, at, i, e);
    assert next == path + [str[i]];
    ScanExtendsMatch(t, str, i, path, at);
    ScanStarsRest(t, str, at, e, i + 1);
  }

  /** Every character `r` changes in `str` becomes a star and lies inside a
      match that starts at or after `lo`. */
  ghost predicate ChangesInSpans(t: Trie, str: seq<char>, r: seq<char>, lo: int) {
    |r| == |str| && forall k | 0 <= k < |str| && r[k] != str[k] :: r[k] == Star && InWordSpan(t, str, k, lo)
  }

  /** Only matches are starred: every character the scan from `i` changes
      lies inside a match that starts no earlier than the current one. */
  lemma {:induction false} ScanStarsOnlyWords(t: Trie, str: seq<char>, i: nat, path: seq<char>, start: int)
    requires i <= |str|
    requires start == -1 <==> path == []
    requires start != -1 ==> 0 <= start < i
    requires start != -1 ==> str[start] !in InvalidChars && Visible(str[start..i]) == path
    ensures ChangesInSpans(t, str, Scan(t, str, i, path, start), if start == -1 then i else start)
    decreases |str| - (if start == -1 then i else start), |str| - i, 1
  {
    if i < |str| {
      if str[i] in InvalidChars {
        OnlyWordsPastIgnored(t, str, i, path, start);
      } else if path + [str[i]] in t {
        OnlyWordsOnNode(t, str, i, path, start);
      } else {
        OnlyWordsOnMiss(t, str, i, path, start);
      }
    }
  }

  /** `ScanStarsOnlyWords` at an ignored character. */
  lemma {:induction false} OnlyWordsPastIgnored(t: Trie, str: seq<char>, i: nat, path: seq<char>, start: int)
    requires i < |str| && str[i] in InvalidChars
    requires start == -1 <==> path == []
    requires start != -1 ==> 0 <= start < i
    requires start != -1 ==> str[start] !in InvalidChars && Visible(str[start..i]) == path
    ensures ChangesInSpans(t, str, Scan(t, str, i, path, start), if start == -1 then i else start)
    decreases |str| - (if start == -1 then i else start), |str| - i, 0
  {
    if start != -1 {
      VisibleStep(str, start, i);
      assert path + [] == path;
    }
    ScanSkipsIgnored(t, str, i, path, start);
    ScanStarsOnlyWords(t, str, i + 1, path, start);
    WidenSpans(t, str, Scan(t, str, i + 1, path, start),
               if start == -1 then i else start, if start == -1 then i + 1 else start);
  }

  /** `ScanStarsOnlyWords` at a character that leads to a trie node. */
  lemma {:induction false} OnlyWordsOnNode(t: Trie, str: seq<char>, i: nat, path: seq<char>, start: int)
    requires i < |str| && str[i] !in InvalidChars && path + [str[i]] in t
    requires start == -1 <==> path == []
    requires start != -1 ==> 0 <= start < i
    requires start != -1 ==> str[start] !in InvalidChars && Visible(str[start..i]) == path
    ensures ChangesInSpans(t, str, Scan(t, str, i, path, start), if start == -1 then i else start)
    decreases |str| - (if start == -1 then i else start), |str| - i, 0
  {
    var c := str[i];
    var lo := if start == -1 then i else start;
    VisibleStep(str, lo, i);
    assert str[lo..lo] == [];
    assert Visible(str[lo..i + 1]) == path + [c];
    if t[path + [c]] {
      ScanEndsMatch(t, str, i, path, start);
      StarredMatchSpans(t, str, lo, i + 1);
    } else {
      ScanExtendsMatch(t, str, i, path, start);
      ScanStarsOnlyWords(t, str, i + 1, path + [c], lo);
    }
  }

  /** `ScanStarsOnlyWords` at a character that leads nowhere. */
  lemma {:induction false} OnlyWordsOnMiss(t: Trie, str: seq<char>, i: nat, path: seq<char>, start: int)
    requires i < |str| && str[i] !in InvalidChars && path + [str[i]] !in t
    requires start == -1 <==> path == []
    requires start != -1 ==> 0 <= start < i
    requires start != -1 ==> str[start] !in InvalidChars && Visible(str[start..i]) == path
    ensures ChangesInSpans(t, str, Scan(t, str, i, path, start), if start == -1 then i else start)
    decreases |str| - (if start == -1 then i else start), |str| - i, 0
  {
    if start != -1 {
      ScanAbandonsMatch(t, str, i, path, start);
      ScanStarsOnlyWords(t, str, start + 2, [], -1);
      WidenSpans(t, str, Scan(t, str, start + 2, [], -1), start, start + 2);
    } else {
      assert [] + [str[i]] == [str[i]];
      ScanMissesAtRoot(t, str, i);
      ScanStarsOnlyWords(t, str, i + 1, [], -1);
      WidenSpans(t, str, Scan(t, str, i + 1, [], -1), i, i + 1);
    }
  }

  /** A change inside a match starting at or after `hi` is inside one
      starting at or after any `lo` below it. */
  lemma {:induction false} WidenSpans(t: Trie, str: seq<char>, r: seq<char>, lo: int, hi: int)
    requires lo <= hi && ChangesInSpans(t, str, r, hi)
    ensures ChangesInSpans(t, str, r, lo)
  {
    forall k | 0 <= k < |str| && r[k] != str[k] ensures r[k] == Star && InWordSpan(t, str, k, lo) {
      var a, b :| hi <= a <= k < b && Spells(t, str, a, b);
    }
  }

  /** Starring a match and scanning on from its end changes only the match
      and characters inside later matches. */
  lemma {:induction false} StarredMatchSpans(t: Trie, str: seq<char>, first: nat, e: nat)
    requires Spells(t, str, first, e)
    ensures ChangesInSpans(t, str, Scan(t, StarOut(str, first, e), e, [], -1), first)
    decreases |str| - first, 0, 0
  {
    var starred := StarOut(str, first, e);
    var r := Scan(t, starred, e, [], -1);
    ScanStarsOnlyWords(t, starred, e, [], -1);
    forall k | 0 <= k < |str| && r[k] != str[k] ensures r[k] == Star && InWordSpan(t, str, k, first) {
      if k < first || e <= k {
        assert r[k] != starred[k];
        var a, b :| e <= a <= k < b && Spells(t, starred, a, b);
        SpellsPastStars(t, str, first, e, a, b);
      } else {
        assert starred[k] == Star && first <= k < e && Spells(t, str, first, e);
      }
    }
  }

  /** A match found after a starred span is a match of the text before
      starring. */
  lemma {:induction false} SpellsPastStars(t: Trie, str: seq<char>, first: nat, e: nat, a: int, b: int)
    requires first <= e <= |str| && e <= a && Spells(t, StarOut(str, first, e), a, b)
    ensures Spells(t, str, a, b)
  {
    assert StarOut(str, first, e)[a..b] == str[a..b];
  }

  /** A character completing a word stars the match and restarts at the root. */
  lemma {:induction false} ScanEndsMatch(t: Trie, str: seq<char>, i: nat, path: seq<char>, start: int)
    requires i < |str| && str[i] !in InvalidChars
    requires start == -1 <==> path == []
    requires start != -1 ==> 0 <= start < i
    requires path + [str[i]] in t && t[path + [str[i]]]
    ensures Scan(t, str, i, path, start) ==
            Scan(t, StarOut(str, if start == -1 then i else start, i + 1), i + 1, [], -1)
  {
  }

  /** A character extending the match to a node that ends no word moves on. */
  lemma {:induction false} ScanExtendsMatch(t: Trie, str: seq<char>, i: nat, path: seq<char>, start: int)
    requires i < |str| && str[i] !in InvalidChars
    requires start == -1 <==> path == []
    requires start != -1 ==> 0 <= start < i
    requires path + [str[i]] in t && !t[path + [str[i]]]
    ensures Scan(t, str, i, path, start) ==
            Scan(t, str, i + 1, path + [str[i]], if start == -1 then i else start)
  {
  }

  /** A word of plain characters that no shorter word cuts off is a match
      of itself. */
  lemma {:induction false} PlainWordSpells(t: Trie, w: seq<char>)
    requires w != [] && w in t && t[w] && NoShorterWord(t, w)
    requires forall k | 0 <= k < |w| :: w[k] !in InvalidChars
    ensures Spells(t, w, 0, |w|) && NoShorterWord(t, Visible(w[0..|w|]))
  {
    assert w[0..|w|] == w;
    VisibleOfPlain(w);
  }

  /** A text that is exactly such a word comes back as stars only. */
  lemma {:induction false} WholeWordStarred(t: Trie, w: seq<char>)
    requires w != [] && w in t && t[w]
    requires forall n | 1 <= n < |w| :: w[..n] in t && !t[w[..n]]
    requires forall k | 0 <= k < |w| :: w[k] !in InvalidChars
    ensures ChangeSensitiveWords(t, w) == Stars(|w|)
  {
    PlainWordSpells(t, w);
    var starred := StarOut(w, 0, |w|);
    assert starred == Stars(|w|);
    calc {
      ChangeSensitiveWords(t, w);
      Scan(t, w, 0, [], -1);
      { ScanStarsWord(t, w, 0, |w|); }
      Scan(t, starred, |w|, [], -1);
      starred;
    }
  }

  /** The scan starts two past a failed partial match: with the single word
      `ab`, the `ab` in `aab` is not found. */
  lemma ResumesTwoPastStart()
    ensures ChangeSensitiveWords(map["a" := false, "ab" := true], "aab") == "aab"
  {
    var t := map["a" := false, "ab" := true];
    var str := "aab";
    assert 'a' !in InvalidChars && 'b' !in InvalidChars;
    assert [] + ['a'] == "a";
    assert "a" + ['a'] == "aa";
    assert [] + ['b'] == "b";
    calc {
      Scan(t, str, 0, [], -1);
      Scan(t, str, 1, "a", 0);
      Scan(t, str, 2, [], -1);
      Scan(t, str, 3, [], -1);
      str;
    }
  }

  /** The character right after a failed partial match's first character
      is never looked at: with words `ab` and `c`, the `c` in `ac` stays. */
  lemma SkipsCharAfterFailedStart()
    ensures ChangeSensitiveWords(map["a" := false, "ab" := true, "c" := true], "ac") == "ac"
  {
    var t := map["a" := false, "ab" := true, "c" := true];
    var str := "ac";
    assert 'a' !in InvalidChars && 'c' !in InvalidChars;
    assert [] + ['a'] == "a";
    assert "a" + ['c'] == "ac";
    calc {
      Scan(t, str, 0, [], -1);
      Scan(t, str, 1, "a", 0);
      Scan(t, str, 2, [], -1);
      str;
    }
  }

  /** Matching stops at the first word end: after adding `ab` and `abc`,
      only `ab` is starred in `abc`. */
  lemma ShortestWordWins()
    ensures ChangeSensitiveWords(AddWord(AddWord(map[], "ab"), "abc"), "abc") == "**c"
  {
    var t := AddWord(AddWord(map[], "ab"), "abc");
    assert "ab"[..1] == "a" && "abc"[..1] == "a" && "abc"[..2] == "ab";
    assert "a" in Prefixes("ab") && "ab" in Prefixes("ab");
    assert "c" !in Prefixes("ab") && "c" !in Prefixes("abc");
    StopsAtFirstEnd(t);
  }

  /** In a trie where `a` is an inner node, `ab` a word end and `c` no
      node, the scan of `abc` stars `ab` and leaves `c`. */
  lemma {:induction false} StopsAtFirstEnd(t: Trie)
    requires "a" in t && !t["a"] && "ab" in t && t["ab"] && "c" !in t
    ensures ChangeSensitiveWords(t, "abc") == "**c"
  {
    var str := "abc";
    assert 'a' !in InvalidChars && 'b' !in InvalidChars && 'c' !in InvalidChars;
    assert [] + ['a'] == "a";
    assert "a" + ['b'] == "ab";
    assert [] + ['c'] == "c";
    var starred := StarOut(str, 0, 2);
    assert starred == "**c";
    calc {
      Scan(t, str, 0, [], -1);
      Scan(t, str, 1, "a", 0);
      Scan(t, starred, 2, [], -1);
      Scan(t, starred, 3, [], -1);
      starred;
    }
  }

  /** Ignored characters inside a match are skipped while matching and
      starred with it. */
  lemma SkippedCharsAreStarred()
    ensures ChangeSensitiveWords(map["a" := false, "ab" := true], "a b") == "***"
  {
    var t := map["a" := false, "ab" := true];
    var str := "a b";
    assert ' ' in InvalidChars && 'a' !in InvalidChars && 'b' !in InvalidChars;
    assert [] + ['a'] == "a";
    assert "a" + ['b'] == "ab";
    var starred := StarOut(str, 0, 3);
    assert starred == "***";
    calc {
      Scan(t, str, 0, [], -1);
      Scan(t, str, 1, "a", 0);
      Scan(t, str, 2, "a", 0);
      Scan(t, starred, 3, [], -1);
      starred;
    }
  }

  // ---------------------------------------------------------- locality

  /** A start index moved right by `n`; -1 (no match) stays. */
  function Shifted(start: int, n: nat): int {
    if start == -1 then -1 else start + n
  }

  /** Starring inside `q` is starring the same span shifted past `p`. */
  lemma {:induction false} StarOutShift(p: seq<char>, q: seq<char>, a: nat, b: nat)
    requires a <= b <= |q|
    ensures StarOut(p + q, |p| + a, |p| + b) == p + StarOut(q, a, b)
  {
    var l, r := StarOut(p + q, |p| + a, |p| + b), p + StarOut(q, a, b);
    forall k | 0 <= k < |l| ensures l[k] == r[k] {
      if k >= |p| {
        assert (p + q)[k] == q[k - |p|];
      }
    }
  }

  /** The scan never looks back: text in front of `q` is passed through
      untouched, and the scan of `q` behind it is the scan of `q` alone. */
  lemma {:induction false} ScanShift(t: Trie, p: seq<char>, q: seq<char>, i: nat, path: seq<char>, start: int)
    requires i <= |q|
    requires start == -1 <==> path == []
    requires start != -1 ==> 0 <= start < i
    ensures Scan(t, p + q, |p| + i, path, Shifted(start, |p|)) == p + Scan(t, q, i, path, start)
    decreases |q| - (if start == -1 then i else start), |q| - i, 1
  {
    if i < |q| {
      assert (p + q)[|p| + i] == q[i];
      if q[i] in InvalidChars {
        ScanSkipsIgnored(t, p + q, |p| + i, path, Shifted(start, |p|));
        ScanSkipsIgnored(t, q, i, path, start);
        ScanShift(t, p, q, i + 1, path, start);
      } else if path + [q[i]] in t {
        ShiftOnNode(t, p, q, i, path, start);
      } else {
        ShiftOnMiss(t, p, q, i, path, start);
      }
    } else {
      assert |p + q| == |p| + i;
    }
  }

  /** `ScanShift` at a character that leads to a trie node. */
  lemma {:induction false} ShiftOnNode(t: Trie, p: seq<char>, q: seq<char>, i: nat, path: seq<char>, start: int)
    requires i < |q| && q[i] !in InvalidChars && path + [q[i]] in t
    requires start == -1 <==> path == []
    requires start != -1 ==> 0 <= start < i
    ensures Scan(t, p + q, |p| + i, path, Shifted(start, |p|)) == p + Scan(t, q, i, path, start)
    decreases |q| - (if start == -1 then i else start), |q| - i, 0
  {
    if t[path + [q[i]]] {
      ShiftOnEnd(t, p, q, i, path, start);
    } else {
      ShiftOnInner(t, p, q, i, path, start);
    }
  }

  /** `ScanShift` at a character that completes a word. */
  lemma {:induction false} ShiftOnEnd(t: Trie, p: seq<char>, q: seq<char>, i: nat, path: seq<char>, start: int)
    requires i < |q| && q[i] !in InvalidChars && path + [q[i]] in t && t[path + [q[i]]]
    requires start == -1 <==> path == []
    requires start != -1 ==> 0 <= start < i
    ensures Scan(t, p + q, |p| + i, path, Shifted(start, |p|)) == p + Scan(t, q, i, path, start)
    decreases |q| - (if start == -1 then i else start), |q| - i, -1
  {
    var starred := StarOut(q, if start == -1 then i else start, i + 1);
    ShiftedEnd(t, p, q, i, path, start);
    ScanShift(t, p, starred, i + 1, [], -1);
    ScanEndsMatch(t, q, i, path, start);
  }

  /** Ending a match behind `p` stars the same span of `q`, shifted. */
  lemma {:induction false} ShiftedEnd(t: Trie, p: seq<char>, q: seq<char>, i: nat, path: seq<char>, start: int)
    requires i < |q| && q[i] !in InvalidChars && path + [q[i]] in t && t[path + [q[i]]]
    requires start == -1 <==> path == []
    requires start != -1 ==> 0 <= start < i
    ensures Scan(t, p + q, |p| + i, path, Shifted(start, |p|)) ==
            Scan(t, p + StarOut(q, if start == -1 then i else start, i + 1), |p| + (i + 1), [], Shifted(-1, |p|))
  {
    var s, j, sh := p + q, |p| + i, Shifted(start, |p|);
    assert s[j] == q[i];
    var first := if start == -1 then i else start;
    assert (if sh == -1 then j else sh) == |p| + first;
    StarOutShift(p, q, first, i + 1);
    ScanEndsMatch(t, s, j, path, sh);
    assert Shifted(-1, |p|) == -1;
  }

  /** `ScanShift` at a character that leads to an inner node. */
  lemma {:induction false} ShiftOnInner(t: Trie, p: seq<char>, q: seq<char>, i: nat, path: seq<char>, start: int)
    requires i < |q| && q[i] !in InvalidChars && path + [q[i]] in t && !t[path + [q[i]]]
    requires start == -1 <==> path == []
    requires start != -1 ==> 0 <= start < i
    ensures Scan(t, p + q, |p| + i, path, Shifted(start, |p|)) == p + Scan(t, q, i, path, start)
    decreases |q| - (if start == -1 then i else start), |q| - i, -1
  {
    ShiftedExtends(t, p, q, i, path, start);
    ScanShift(t, p, q, i + 1, path + [q[i]], if start == -1 then i else start);
    ScanExtendsMatch(t, q, i, path, start);
  }

  /** Extending a match behind `p` extends the same match in `q`, shifted. */
  lemma {:induction false} ShiftedExtends(t: Trie, p: seq<char>, q: seq<char>, i: nat, path: seq<char>, start: int)
    requires i < |q| && q[i] !in InvalidChars && path + [q[i]] in t && !t[path + [q[i]]]
    requires start == -1 <==> path == []
    requires start != -1 ==> 0 <= start < i
    ensures Scan(t, p + q, |p| + i, path, Shifted(start, |p|)) ==
            Scan(t, p + q, |p| + (i + 1), path + [q[i]], Shifted(if start == -1 then i else start, |p|))
  {
    var s, j, sh := p + q, |p| + i, Shifted(start, |p|);
    assert s[j] == q[i];
    if start == -1 {
      assert sh == -1 && Shifted(i, |p|) == j;
    } else {
      assert sh == Shifted(start, |p|) == start + |p|;
    }
    ScanExtendsMatch(t, s, j, path, sh);
  }

  /** `ScanShift` at a character that leads nowhere. */
  lemma {:induction false} ShiftOnMiss(t: Trie, p: seq<char>, q: seq<char>, i: nat, path: seq<char>, start: int)
    requires i < |q| && q[i] !in InvalidChars && path + [q[i]] !in t
    requires start == -1 <==> path == []
    requires start != -1 ==> 0 <= start < i
    ensures Scan(t, p + q, |p| + i, path, Shifted(start, |p|)) == p + Scan(t, q, i, path, start)
    decreases |q| - (if start == -1 then i else start), |q| - i, 0
  {
    var s, j := p + q, |p| + i;
    var c := q[i];
    assert s[j] == c;
    if start != -1 {
      ScanAbandonsMatch(t, s, j, path, start + |p|);
      ScanAbandonsMatch(t, q, i, path, start);
      ScanShift(t, p, q, start + 2, [], -1);
    } else {
      assert [] + [c] == [c];
      ScanMissesAtRoot(t, s, j);
      ScanMissesAtRoot(t, q, i);
      ScanShift(t, p, q, i + 1, [], -1);
    }
  }

  /** A piece none of whose characters begins a word passes through. */
  lemma {:induction false} PlainPiece(t: Trie, piece: seq<char>, rest: seq<char>)
    requires forall k | 0 <= k < |piece| :: piece[k] in InvalidChars || [piece[k]] !in t
    ensures Scan(t, piece + rest, 0, [], -1) == piece + Scan(t, rest, 0, [], -1)
  {
    ScanSkipsNonStarts(t, piece + rest, 0, |piece|);
    ScanShift(t, piece, rest, 0, [], -1);
  }

  /** A piece that is a whole match, cut short by no shorter word, comes out
      as stars. */
  lemma {:induction false} WordPiece(t: Trie, piece: seq<char>, rest: seq<char>)
    requires Spells(t, piece, 0, |piece|) && NoShorterWord(t, Visible(piece))
    ensures Scan(t, piece + rest, 0, [], -1) == Stars(|piece|) + Scan(t, rest, 0, [], -1)
  {
    var s := piece + rest;
    assert s[0..|piece|] == piece && piece[0..|piece|] == piece;
    ScanStarsWord(t, s, 0, |piece|);
    StarredPiece(t, piece, rest, Stars(|piece|));
  }

  /** A run of ignored characters leaves the match as it is. */
  lemma {:induction false} ScanSkipsIgnoredRun(t: Trie, str: seq<char>, i: nat, j: nat, path: seq<char>, start: int)
    requires i <= j <= |str|
    requires forall k | i <= k < j :: str[k] in InvalidChars
    requires start == -1 <==> path == []
    requires start != -1 ==> 0 <= start < i
    ensures Scan(t, str, i, path, start) == Scan(t, str, j, path, start)
    decreases j - i
  {
    if i < j {
      ScanSkipsIgnored(t, str, i, path, start);
      ScanSkipsIgnoredRun(t, str, i + 1, j, path, start);
    }
  }

  /** A one-character word in front of `rest` becomes a star. */
  lemma {:induction false} WordOfOne(t: Trie, a: char, rest: seq<char>)
    requires a !in InvalidChars && [a] in t && t[[a]]
    ensures Scan(t, [a] + rest, 0, [], -1) == Stars(1) + Scan(t, rest, 0, [], -1)
  {
    var s := [a] + rest;
    assert s[0] == a && [] + [a] == [a];
    ScanEndsMatch(t, s, 0, [], -1);
    StarredPiece(t, [a], rest, Stars(1));
  }

  /** A two-character word with ignored characters `gap` between them
      becomes stars, the gap included. */
  lemma {:induction false} WordOfTwo(t: Trie, a: char, gap: seq<char>, b: char, rest: seq<char>)
    requires a !in InvalidChars && b !in InvalidChars
    requires forall k | 0 <= k < |gap| :: gap[k] in InvalidChars
    requires [a] in t && !t[[a]] && [a, b] in t && t[[a, b]]
    ensures Scan(t, [a] + gap + [b] + rest, 0, [], -1) ==
            Stars(|gap| + 2) + Scan(t, rest, 0, [], -1)
  {
    var piece := [a] + gap + [b];
    var s := piece + rest;
    var n := |gap| + 1;
    assert s[0] == a && s[n] == b && [] + [a] == [a] && [a] + [b] == [a, b];
    assert forall k | 1 <= k < n :: s[k] == gap[k - 1];
    ScanExtendsMatch(t, s, 0, [], -1);
    ScanSkipsIgnoredRun(t, s, 1, n, [a], 0);
    ScanEndsMatch(t, s, n, [a], 0);
    StarredPiece(t, piece, rest, Stars(|gap| + 2));
  }

  /** A four-character word with one ignored character after each of its
      first three becomes seven stars. */
  lemma {:induction false} WordOfFour(t: Trie, a: char, x: char, b: char, y: char, c: char, z: char, d: char, rest: seq<char>)
    requires a !in InvalidChars && b !in InvalidChars && c !in InvalidChars && d !in InvalidChars
    requires x in InvalidChars && y in InvalidChars && z in InvalidChars
    requires [a] in t && !t[[a]] && [a, b] in t && !t[[a, b]] && [a, b, c] in t && !t[[a, b, c]]
    requires [a, b, c, d] in t && t[[a, b, c, d]]
    ensures Scan(t, [a, x, b, y, c, z, d] + rest, 0, [], -1) == Stars(7) + Scan(t, rest, 0, [], -1)
  {
    var s := [a, x, b, y, c, z, d] + rest;
    assert s[0] == a && s[1] == x && s[2] == b && s[3] == y && s[4] == c && s[5] == z && s[6] == d;
    assert [] + [a] == [a] && [a] + [b] == [a, b] && [a, b] + [c] == [a, b, c] && [a, b, c] + [d] == [a, b, c, d];
    ScanExtendsMatch(t, s, 0, [], -1);
    ScanSkipsIgnored(t, s, 1, [a], 0);
    ScanExtendsMatch(t, s, 2, [a], 0);
    ScanSkipsIgnored(t, s, 3, [a, b], 0);
    ScanExtendsMatch(t, s, 4, [a, b], 0);
    ScanSkipsIgnored(t, s, 5, [a, b, c], 0);
    ScanEndsMatch(t, s, 6, [a, b, c], 0);
    StarredPiece(t, [a, x, b, y, c, z, d], rest, Stars(7));
  }

  /** A match starting at `a` that `b` cannot extend is dropped, and the
      scan goes on at the root right after `b`, which it never examines. */
  lemma {:induction false} AbandonedStart(t: Trie, a: char, b: char, rest: seq<char>)
    requires a !in InvalidChars && b !in InvalidChars
    requires [a] in t && !t[[a]] && [a, b] !in t
    ensures Scan(t, [a, b] + rest, 0, [], -1) == [a, b] + Scan(t, rest, 0, [], -1)
  {
    var s := [a, b] + rest;
    assert s[0] == a && s[1] == b && [] + [a] == [a] && [a] + [b] == [a, b];
    ScanExtendsMatch(t, s, 0, [], -1);
    ScanAbandonsMatch(t, s, 1, [a], 0);
    ScanShift(t, [a, b], rest, 0, [], -1);
  }

  /** A match over the whole of `piece`, found in front of `rest`, comes
      out as stars and the scan goes on at the root after it. */
  lemma {:induction false} StarredPiece(t: Trie, piece: seq<char>, rest: seq<char>, stars: seq<char>)
    requires piece != [] && stars == Stars(|piece|)
    requires Scan(t, piece + rest, 0, [], -1) ==
             Scan(t, StarOut(piece + rest, 0, |piece|), |piece|, [], -1)
    ensures Scan(t, piece + rest, 0, [], -1) == stars + Scan(t, rest, 0, [], -1)
  {
    assert StarOut(piece + rest, 0, |piece|) == stars + rest;
    ScanShift(t, stars, rest, 0, [], -1);
  }

  // ------------------------------------------------- the shipped example

  /** The word list of the filter test in profanity/profanity_test.go. */
  const TestWords: set<seq<char>> := {"你妈逼的", "你妈", "狗日", "傻", "fuck"}

  /** The characters that begin a word of the test. */
  const TestFirsts: set<char> := {'你', '狗', '傻', 'f'}

  /** The facts about the trie of the test's words that its scan uses:
      which characters begin a node and follow the first, and the nodes
      along each word with their end flags. */
  predicate TestShape(t: Trie) {
    && (forall p | p in t :: p != [] && p[0] in TestFirsts)
    && (forall p | p in t && |p| >= 2 :: p[1] in {'妈', '日', 'u'})
    && "你" in t && !t["你"] && "你妈" in t && t["你妈"]
    && "狗" in t && !t["狗"] && "狗日" in t && t["狗日"]
    && "傻" in t && t["傻"]
    && "f" in t && !t["f"] && "fu" in t && !t["fu"] && "fuc" in t && !t["fuc"] && "fuck" in t && t["fuck"]
  }

  /** The test's input text, written as the pieces between and over its
      matches, and the text the test expects back. */
  const TestText: seq<char> :=
    "文明用语" + ("你&* 妈" + (", 逼的" + ("你这" + ("个" + ("狗 日" + ("的，怎么这么" + ("傻" +
    ("啊。我也" + ("f u@c%k" + "是服了，我日,这些话我都说不出口")))))))))
  const TestExpected: seq<char> :=
    "文明用语" + ("*****" + (", 逼的" + ("你这" + ("个" + ("***" + ("的，怎么这么" + ("*" +
    ("啊。我也" + ("*******" + "是服了，我日,这些话我都说不出口")))))))))

  /** Adding the test's words to an empty trie gives a trie of that shape. */
  lemma TestTrieBuilt()
    ensures TestShape(Built(map[], TestWords))
  {
    TestTrieFirsts();
    TestTrieSeconds();
    TestTriePair("你妈");
    TestTriePair("狗日");
    assert "你妈"[..1] == "你" && "狗日"[..1] == "狗";
    TestTrieSha();
    TestTrieF();
  }

  /** Every node of the test's trie begins with a word's first character. */
  lemma TestTrieFirsts()
    ensures forall p | p in Built(map[], TestWords) :: p != [] && p[0] in TestFirsts
  {
    forall p | p in Built(map[], TestWords) ensures p != [] && p[0] in TestFirsts {
      var w, i :| w in TestWords && 1 <= i <= |w| && p == w[..i];
      assert p[0] == w[0];
    }
  }

  /** The second character of a node of the test's trie. */
  lemma TestTrieSeconds()
    ensures forall p | p in Built(map[], TestWords) && |p| >= 2 :: p[1] in {'妈', '日', 'u'}
  {
    forall p | p in Built(map[], TestWords) && |p| >= 2 ensures p[1] in {'妈', '日', 'u'} {
      var w, i :| w in TestWords && 1 <= i <= |w| && p == w[..i];
      assert p[1] == w[1];
    }
  }

  /** The nodes along the two-character words `你妈` and `狗日`: the
      first character is an inner node and the word ends one. */
  lemma TestTriePair(w: seq<char>)
    requires w == "你妈" || w == "狗日"
    ensures var b := Built(map[], TestWords); w[..1] in b && !b[w[..1]] && w in b && b[w]
  {
    assert w in TestWords && w[..2] == w && |w[..1]| == 1;
    assert w[..1][0] != "傻"[0];
  }

  /** The node `傻`. */
  lemma TestTrieSha()
    ensures var b := Built(map[], TestWords); "傻" in b && b["傻"]
  {
    assert "傻" in TestWords && "傻"[..1] == "傻";
  }

  /** The nodes `f`, `fu`, `fuc` and `fuck`. */
  lemma TestTrieF()
    ensures var b := Built(map[], TestWords);
      "f" in b && !b["f"] && "fu" in b && !b["fu"] && "fuc" in b && !b["fuc"] && "fuck" in b && b["fuck"]
  {
    assert "fuck" in TestWords && "fuck"[..1] == "f" && "fuck"[..2] == "fu" && "fuck"[..3] == "fuc";
    assert "fuck"[..4] == "fuck";
    assert "f"[0] != "傻"[0] && "fu"[0] != "你妈"[0] && "fu"[0] != "狗日"[0];
  }

  /** The characters of the test's matches that are looked at. */
  lemma TestVisibleChars()
    ensures '你' !in InvalidChars && '妈' !in InvalidChars && '这' !in InvalidChars
    ensures '狗' !in InvalidChars && '日' !in InvalidChars && '傻' !in InvalidChars
  {
  }

  /** The same, for `fuck`. */
  lemma TestLatinChars()
    ensures 'f' !in InvalidChars && 'u' !in InvalidChars && 'c' !in InvalidChars && 'k' !in InvalidChars
  {
  }

  /** The characters inside the test's matches that are skipped. */
  lemma TestIgnoredChars()
    ensures ' ' in InvalidChars && '&' in InvalidChars && '*' in InvalidChars
    ensures '@' in InvalidChars && '%' in InvalidChars
  {
  }

  /** The test of profanity/profanity_test.go: `你&* 妈`, `狗 日`, `傻` and
      `f u@c%k` are starred through their ignored characters, the `你` of
      `你这` starts a match that fails, and nothing else changes. */
  lemma FilterTestExample()
    ensures ChangeSensitiveWords(Built(map[], TestWords), TestText) == TestExpected
  {
    var t := Built(map[], TestWords);
    TestTrieBuilt();
    TestScan(t);
  }

  /** No character of `piece` begins a word of the test. */
  predicate NoTestFirsts(piece: seq<char>) {
    forall k | 0 <= k < |piece| :: piece[k] !in TestFirsts
  }

  /** The pieces of the test's text before and after the `你这`. */
  lemma TestPlainEarly()
    ensures NoTestFirsts("文明用语") && NoTestFirsts(", 逼的") && NoTestFirsts("个")
  {
  }

  /** The pieces of the test's text between its later matches. */
  lemma TestPlainLate()
    ensures NoTestFirsts("的，怎么这么") && NoTestFirsts("啊。我也")
  {
  }

  /** The end of the test's text. */
  lemma TestPlainTail()
    ensures NoTestFirsts("是服了，我日,这些话我都说不出口")
  {
  }

  /** A piece of the test's text none of whose characters begins a word. */
  lemma {:induction false} TestPlainPiece(t: Trie, piece: seq<char>, rest: seq<char>)
    requires TestShape(t) && NoTestFirsts(piece)
    ensures Scan(t, piece + rest, 0, [], -1) == piece + Scan(t, rest, 0, [], -1)
  {
    PlainPiece(t, piece, rest);
  }

  /** The scan of the test's text in any trie of the test's shape. */
  lemma {:induction false} TestScan(t: Trie)
    requires TestShape(t)
    ensures Scan(t, TestText, 0, [], -1) == TestExpected
  {
    var r2 := ", 逼的" + ("你这" + ("个" + ("狗 日" + ("的，怎么这么" + ("傻" +
      ("啊。我也" + ("f u@c%k" + "是服了，我日,这些话我都说不出口")))))));
    var r1 := "你&* 妈" + r2;
    TestVisibleChars();
    TestIgnoredChars();
    TestScanMiddle(t);
    TestPlainEarly();
    WordOfTwo(t, '你', "&* ", '妈', r2);
    TestPlainPiece(t, "文明用语", r1);
    TestStars();
  }

  /** The scan of the test's text from the `,` after the first match. */
  lemma {:induction false} TestScanMiddle(t: Trie)
    requires TestShape(t)
    ensures Scan(t, ", 逼的" + ("你这" + ("个" + ("狗 日" + ("的，怎么这么" + ("傻" +
              ("啊。我也" + ("f u@c%k" + "是服了，我日,这些话我都说不出口"))))))), 0, [], -1) ==
            ", 逼的" + ("你这" + ("个" + ("***" + ("的，怎么这么" + ("*" +
              ("啊。我也" + ("*******" + "是服了，我日,这些话我都说不出口")))))))
  {
    var late := "个" + ("狗 日" + ("的，怎么这么" + ("傻" +
      ("啊。我也" + ("f u@c%k" + "是服了，我日,这些话我都说不出口")))));
    TestVisibleChars();
    TestScanLate(t);
    TestPlainEarly();
    AbandonedStart(t, '你', '这', late);
    TestPlainPiece(t, ", 逼的", "你这" + late);
  }

  /** The scan of the test's text from the `个` after the failed match. */
  lemma {:induction false} TestScanLate(t: Trie)
    requires TestShape(t)
    ensures Scan(t, "个" + ("狗 日" + ("的，怎么这么" + ("傻" +
              ("啊。我也" + ("f u@c%k" + "是服了，我日,这些话我都说不出口"))))), 0, [], -1) ==
            "个" + ("***" + ("的，怎么这么" + ("*" +
              ("啊。我也" + ("*******" + "是服了，我日,这些话我都说不出口")))))
  {
    var tail := "是服了，我日,这些话我都说不出口";
    var r9 := "f u@c%k" + tail;
    var r8 := "啊。我也" + r9;
    var r7 := "傻" + r8;
    var r6 := "的，怎么这么" + r7;
    var r5 := "狗 日" + r6;
    TestVisibleChars();
    TestLatinChars();
    TestIgnoredChars();
    TestScanTail(t, tail);
    TestPlainEarly();
    TestPlainLate();
    WordOfFour(t, 'f', ' ', 'u', '@', 'c', '%', 'k', tail);
    TestPlainPiece(t, "啊。我也", r9);
    WordOfOne(t, '傻', r8);
    TestPlainPiece(t, "的，怎么这么", r7);
    WordOfTwo(t, '狗', " ", '日', r6);
    TestPlainPiece(t, "个", r5);
    TestStars();
  }

  /** The end of the test's text holds no word's first character. */
  lemma {:induction false} TestScanTail(t: Trie, tail: seq<char>)
    requires TestShape(t) && tail == "是服了，我日,这些话我都说不出口"
    ensures Scan(t, tail, 0, [], -1) == tail
  {
    TestPlainTail();
    ScanWithoutFirstChars(t, tail, 0);
  }

  /** The star runs of the expected text. */
  lemma TestStars()
    ensures Stars(7) == "*******" && Stars(3) == "***"
    ensures Stars(5) == "*****" && Stars(1) == "*"
    ensures "狗 日" == ['狗'] + " " + ['日'] && "你&* 妈" == ['你'] + "&* " + ['妈']
  {
  }
}
