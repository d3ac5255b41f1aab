/** The chat room's shared history (chat/player/player.go): the last fifty
    messages of every chat group, and per word the ages of its recent uses,
    from which the most used word is tracked as a high-water mark.

    The source keeps all of it in one mutex-guarded global; the model passes
    it as a value. The clock (`time.Now().Unix()`) and the window length
    `MaxFSec` are parameters: `MaxFSec` is referenced by the source but its
    declaration is not part of this model. */
module ChatHistory {
  import opened Base

  /** Number of messages kept per group. */
  const HistoryCap: nat := 50
  const U16Modulus: nat := 65536

  /** Recent uses of one word: `stamp` is the time of the latest use and
      `times` holds, per use, its age in seconds at `stamp` (a uint16). */
  datatype TimesElem = TimesElem(stamp: int, times: seq<nat>)

  /** The most used word and its count when it was recorded. */
  datatype RankElem = RankElem(word: string, times: nat)

  datatype History = History(
    content: map<int, seq<string>>,
    frequency: map<string, TimesElem>,
    rank: Option<RankElem>)

  /** The history at startup. */
  const Initial: History := History(map[], map[], None)

  /** `getHistory`: a group's messages, oldest first; none for a group
      nobody has written to. */
  function GetHistory(h: History, grp: int): seq<string> {
    if grp in h.content then h.content[grp] else []
  }

  /** The last `n` elements of `s`, or all of `s` when it is shorter. */
  function Last<T>(s: seq<T>, n: nat): (r: seq<T>)
    ensures |r| == if |s| <= n then |s| else n
    ensures EndsWith(s, r)
  {
    if |s| > n then s[|s| - n..] else s
  }

  /** Keeping the last `n` of a sequence just extended keeps the new
      element, last. */
  lemma LastKeepsNewest<T>(s: seq<T>, x: T, n: nat)
    requires n >= 1
    ensures var r := Last(s + [x], n); |r| >= 1 && r[|r| - 1] == x
  {
  }

  // ---------------------------------------------------------------------
  // Words of a message

  /** How often `x` occurs in `s`. */
  function Occurrences<T(==)>(s: seq<T>, x: T): nat {
    if s == [] then 0 else (if s[0] == x then 1 else 0) + Occurrences(s[1..], x)
  }

  /** An element that is absent occurs no time. */
  lemma {:induction false} OccurrencesAbsent<T>(s: seq<T>, x: T)
    requires x !in s
    ensures Occurrences(s, x) == 0
  {
    if s != [] {
      assert x !in s[1..];
      OccurrencesAbsent(s[1..], x);
    }
  }

  /** `strings.ReplaceAll(str, "*", "")`. */
  function StripStars(s: string): (r: string)
    ensures '*' !in r
    ensures forall c | c != '*' :: Occurrences(r, c) == Occurrences(s, c)
  {
    if s == [] then []
    else
      var rest := StripStars(s[1..]);
      if s[0] == '*' then rest
      else
        assert ([s[0]] + rest)[1..] == rest;
        [s[0]] + rest
  }

  /** `strings.Split(str, " ")`: the pieces between single spaces; an
      empty string or adjacent spaces give empty pieces. */
  function Split(s: string): (r: seq<string>)
    ensures |r| == Occurrences(s, ' ') + 1
    ensures forall i | 0 <= i < |r| :: ' ' !in r[i]
  {
    if s == [] then [[]]
    else
      var t := Split(s[1..]);
      if s[0] == ' ' then [[]] + t
      else [[s[0]] + t[0]] + t[1..]
  }

  /** `strings.Join(ws, " ")`. */
  function Join(ws: seq<string>): string
    requires |ws| >= 1
  {
    if |ws| == 1 then ws[0] else ws[0] + " " + Join(ws[1..])
  }

  /** Splitting loses nothing: joining the pieces gives the string back. */
  lemma {:induction false} JoinSplit(s: string)
    ensures Join(Split(s)) == s
  {
    if s != [] {
      var t := Split(s[1..]);
      JoinSplit(s[1..]);
      SplitStep(s);
      if s[0] == ' ' {
        JoinSpace(t);
      } else {
        JoinExtendsFirst(s[0], t);
      }
    }
  }

  /** One step of `Split`, without its counting facts. */
  lemma SplitStep(s: string)
    requires s != []
    ensures s == [s[0]] + s[1..]
    ensures Split(s) == if s[0] == ' ' then [[]] + Split(s[1..]) else [[s[0]] + Split(s[1..])[0]] + Split(s[1..])[1..]
  {
  }

  /** An empty first piece joins to a leading space. */
  lemma JoinSpace(t: seq<string>)
    requires |t| >= 1
    ensures Join([[]] + t) == " " + Join(t)
  {
    assert ([[]] + t)[1..] == t;
  }

  /** Putting a character in front of the first piece puts it in front of
      the joined string. */
  lemma JoinExtendsFirst(c: char, t: seq<string>)
    requires |t| >= 1
    ensures Join([[c] + t[0]] + t[1..]) == [c] + Join(t)
  {
    var r := [[c] + t[0]] + t[1..];
    assert |r| == |t| && r[0] == [c] + t[0];
    if |t| > 1 {
      assert r[1..] == t[1..];
      var rest := Join(t[1..]);
      assert Join(r) == ([c] + t[0]) + " " + rest;
      assert Join(t) == t[0] + " " + rest;
      PrependRegroups(c, t[0], rest);
    }
  }

  /** A character in front of a piece, then a space and the rest, is the
      character in front of the whole. */
  lemma PrependRegroups(c: char, first: string, rest: string)
    ensures ([c] + first) + " " + rest == [c] + (first + " " + rest)
  {
  }

  /** A space-free word followed by a space starts a new piece. */
  lemma {:induction false} SplitWord(w: string, rest: string)
    requires ' ' !in w
    ensures Split(w) == [w]
    ensures Split(w + " " + rest) == [w] + Split(rest)
  {
    if w != [] {
      assert (w + " " + rest)[1..] == w[1..] + " " + rest;
      assert w == [w[0]] + w[1..];
      SplitWord(w[1..], rest);
    } else {
      assert w + " " + rest == [' '] + rest;
    }
  }

  /** Joining space-free words and splitting again gives the words back. */
  lemma {:induction false} SplitJoin(ws: seq<string>)
    requires |ws| >= 1
    requires forall i | 0 <= i < |ws| :: ' ' !in ws[i]
    ensures Split(Join(ws)) == ws
  {
    SplitWord(ws[0], if |ws| == 1 then [] else Join(ws[1..]));
    if |ws| > 1 {
      SplitJoin(ws[1..]);
    }
  }

  /** Text without stars is left as it is. */
  lemma {:induction false} StripStarsKeepsStarFree(s: string)
    requires '*' !in s
    ensures StripStars(s) == s
  {
    if s != [] {
      assert s[1..] == s[1..] && '*' !in s[1..];
      StripStarsKeepsStarFree(s[1..]);
      assert s == [s[0]] + s[1..];
    }
  }

  /** The words whose use a message counts. */
  function Words(str: string): seq<string> {
    Split(StripStars(str))
  }

  // ---------------------------------------------------------------------
  // Word frequency

  /** A use of age `x`, `elapsed` seconds later, as uint16 arithmetic
      (`dec + uint16(dec1)` wraps, and so does a negative `elapsed`). */
  function Age(x: nat, elapsed: int): (y: nat)
    ensures y < U16Modulus
  {
    (x + elapsed) % U16Modulus
  }

  /** The positions of the uses of `ts` still inside the window `maxFSec`,
      `elapsed` seconds after their stamp. */
  function InWindowUses(ts: seq<nat>, elapsed: int, maxFSec: int): set<int> {
    set i | 0 <= i < |ts| && ts[i] + elapsed <= maxFSec
  }

  /** The age loop of `updateFrequency`: the uses of a word still inside
      the window `maxFSec`, `elapsed` seconds after its stamp, aged by
      `elapsed`, in their original order. */
  function Survivors(ts: seq<nat>, elapsed: int, maxFSec: int): (r: seq<nat>)
    ensures |r| <= |ts|
    ensures forall i | 0 <= i < |r| :: r[i] < U16Modulus
  {
    if ts == [] then []
    else if ts[0] + elapsed > maxFSec then Survivors(ts[1..], elapsed, maxFSec)
    else [Age(ts[0], elapsed)] + Survivors(ts[1..], elapsed, maxFSec)
  }

  /** One more use at the end survives, aged, exactly when it is inside
      the window. */
  lemma {:induction false} SurvivorsSnoc(ts: seq<nat>, x: nat, elapsed: int, maxFSec: int)
    ensures Survivors(ts + [x], elapsed, maxFSec) ==
            Survivors(ts, elapsed, maxFSec) + (if x + elapsed <= maxFSec then [Age(x, elapsed)] else [])
  {
    if ts != [] {
      assert (ts + [x])[1..] == ts[1..] + [x];
      SurvivorsSnoc(ts[1..], x, elapsed, maxFSec);
    }
  }

  /** One more use at the end adds its position exactly when it is inside
      the window. */
  lemma InWindowSnoc(ts: seq<nat>, x: nat, elapsed: int, maxFSec: int)
    ensures InWindowUses(ts + [x], elapsed, maxFSec) ==
            InWindowUses(ts, elapsed, maxFSec) + (if x + elapsed <= maxFSec then {|ts|} else {})
    ensures |ts| !in InWindowUses(ts, elapsed, maxFSec)
  {
    var s := ts + [x];
    forall i | 0 <= i < |ts| ensures s[i] == ts[i] {
    }
  }

  /** As many uses survive as there are uses inside the window. */
  lemma {:induction false} SurvivorsCount(ts: seq<nat>, elapsed: int, maxFSec: int)
    ensures |Survivors(ts, elapsed, maxFSec)| == |InWindowUses(ts, elapsed, maxFSec)|
    decreases |ts|
  {
    if ts == [] {
      assert InWindowUses(ts, elapsed, maxFSec) == {};
    } else {
      var init, x := ts[..|ts| - 1], ts[|ts| - 1];
      assert ts == init + [x];
      SurvivorsCount(init, elapsed, maxFSec);
      SurvivorsSnoc(init, x, elapsed, maxFSec);
      InWindowSnoc(init, x, elapsed, maxFSec);
    }
  }

  /** When every use is inside the window, every use is counted. */
  lemma {:induction false} AllInWindow(ts: seq<nat>, elapsed: int, maxFSec: int)
    requires forall i | 0 <= i < |ts| :: ts[i] + elapsed <= maxFSec
    ensures |InWindowUses(ts, elapsed, maxFSec)| == |ts|
    decreases |ts|
  {
    if ts == [] {
      assert InWindowUses(ts, elapsed, maxFSec) == {};
    } else {
      var init, x := ts[..|ts| - 1], ts[|ts| - 1];
      assert ts == init + [x];
      AllInWindow(init, elapsed, maxFSec);
      InWindowSnoc(init, x, elapsed, maxFSec);
    }
  }

  /** A use inside the window survives, aged. */
  lemma {:induction false} SurvivorsKeep(ts: seq<nat>, x: nat, elapsed: int, maxFSec: int)
    requires x in ts && x + elapsed <= maxFSec
    ensures Age(x, elapsed) in Survivors(ts, elapsed, maxFSec)
  {
    if ts[0] != x {
      assert x in ts[1..];
      SurvivorsKeep(ts[1..], x, elapsed, maxFSec);
    }
  }

  /** Every survivor is the aged form of a use inside the window. */
  lemma {:induction false} SurvivorOrigin(ts: seq<nat>, y: nat, elapsed: int, maxFSec: int) returns (x: nat)
    requires y in Survivors(ts, elapsed, maxFSec)
    ensures x in ts && x + elapsed <= maxFSec && y == Age(x, elapsed)
  {
    var rest := Survivors(ts[1..], elapsed, maxFSec);
    if ts[0] + elapsed <= maxFSec && y == Age(ts[0], elapsed) {
      x := ts[0];
    } else {
      assert y in rest;
      x := SurvivorOrigin(ts[1..], y, elapsed, maxFSec);
      assert x in ts;
    }
  }

  /** The pre-rank steps of one word's count: `prev`'s surviving uses
      and a fresh use of age 0. */
  function Touch(prev: TimesElem, now: int, maxFSec: int): (e: TimesElem)
    ensures e.stamp == now && |e.times| >= 1 && e.times[|e.times| - 1] == 0
    ensures |e.times| <= |prev.times| + 1
  {
    TimesElem(now, Survivors(prev.times, now - prev.stamp, maxFSec) + [0])
  }

  /** The touched entry holds the earlier uses still inside the window,
      aged and in order, then the fresh use: one more than the in-window
      earlier uses. */
  lemma TouchCounts(prev: TimesElem, now: int, maxFSec: int)
    ensures var e := Touch(prev, now, maxFSec);
      && e.times[..|e.times| - 1] == Survivors(prev.times, now - prev.stamp, maxFSec)
      && |e.times| == |InWindowUses(prev.times, now - prev.stamp, maxFSec)| + 1
  {
    SurvivorsCount(prev.times, now - prev.stamp, maxFSec);
    var kept := Survivors(prev.times, now - prev.stamp, maxFSec);
    assert (kept + [0])[..|kept|] == kept;
  }

  /** `updateRank`: the first count installs the word; after that it is
      replaced only by a strictly larger count, so the recorded count is
      the largest one offered and ties keep the earlier word. */
  function UpdateRank(rank: Option<RankElem>, word: string, times: nat): (r: Option<RankElem>)
    ensures r.Some?
    ensures rank.None? ==> r == Some(RankElem(word, times))
    ensures rank.Some? ==> r.value.times >= rank.value.times && r.value.times >= times
    ensures rank.Some? ==> (r.value.times == rank.value.times || r.value.times == times)
    ensures rank.Some? ==> (r == rank <==> times <= rank.value.times)
    ensures r.value.word == word || r == rank
  {
    if rank.None? then Some(RankElem(word, times))
    else if rank.value.times < times then Some(RankElem(word, times))
    else rank
  }

  /** The entry `updateFrequency` starts from for word `s`: the stored one,
      or for a word seen for the first time one stamped `now` with no uses. */
  function Prev(h: History, s: string, now: int): TimesElem {
    if s in h.frequency then h.frequency[s] else TimesElem(now, [])
  }

  /** The earlier uses of `s` still inside the window at `now`. */
  function PriorUses(h: History, s: string, now: int, maxFSec: int): nat {
    if s in h.frequency then |InWindowUses(h.frequency[s].times, now - h.frequency[s].stamp, maxFSec)| else 0
  }

  /** One iteration of `updateFrequency` for word `s`: the word's entry is
      touched, every other entry is kept, and the rank is offered the new
      count. */
  function UpdateWord(h: History, s: string, now: int, maxFSec: int): (r: History)
    ensures r.content == h.content
    ensures r.frequency.Keys == h.frequency.Keys + {s}
    ensures forall w | w in h.frequency && w != s :: r.frequency[w] == h.frequency[w]
    ensures r.frequency[s].stamp == now
    ensures r.rank == UpdateRank(h.rank, s, |r.frequency[s].times|)
  {
    var prev := Prev(h, s, now);
    var e := Touch(prev, now, maxFSec);
    h.(frequency := h.frequency[s := e], rank := UpdateRank(h.rank, s, |e.times|))
  }

  /** The word's count becomes its earlier uses still inside the window
      plus this one; a word seen for the first time has one use. */
  lemma UpdateWordCount(h: History, s: string, now: int, maxFSec: int)
    ensures var r := UpdateWord(h, s, now, maxFSec);
      && r.frequency[s] == Touch(Prev(h, s, now), now, maxFSec)
      && |r.frequency[s].times| == PriorUses(h, s, now, maxFSec) + 1
  {
    var prev := Prev(h, s, now);
    TouchCounts(prev, now, maxFSec);
    assert s !in h.frequency ==> InWindowUses(prev.times, now - prev.stamp, maxFSec) == {};
  }

  /** The loop of `updateFrequency` over a message's words, in order. */
  function UpdateWords(h: History, words: seq<string>, now: int, maxFSec: int): (r: History)
    ensures r.content == h.content
    ensures r.frequency.Keys == h.frequency.Keys + set w | w in words
    ensures forall w | w in h.frequency && w !in words :: r.frequency[w] == h.frequency[w]
    ensures forall w | w in words :: r.frequency[w].stamp == now
    decreases |words|
  {
    if words == [] then h
    else
      assert forall w | w in words :: w == words[0] || w in words[1..];
      UpdateWords(UpdateWord(h, words[0], now, maxFSec), words[1..], now, maxFSec)
  }

  /** `updateFrequency`: counts one use of every word of `str` at `now`. */
  function UpdateFrequency(h: History, str: string, now: int, maxFSec: int): History {
    UpdateWords(h, Words(str), now, maxFSec)
  }

  /** `addHistory`: appends `str` to group `grp`, keeps the last fifty
      messages and counts the words of `str`. */
  function AddHistory(h: History, grp: int, str: string, now: int, maxFSec: int): History {
    var kept := Last(GetHistory(h, grp) + [str], HistoryCap);
    UpdateFrequency(h.(content := h.content[grp := kept]), str, now, maxFSec)
  }

  /** The group's history becomes the last fifty messages of the old one
      followed by `str`, and ends with `str`. */
  lemma AddHistoryAppends(h: History, grp: int, str: string, now: int, maxFSec: int)
    ensures var before, after := GetHistory(h, grp), GetHistory(AddHistory(h, grp, str, now, maxFSec), grp);
            && |after| == (if |before| < HistoryCap then |before| + 1 else HistoryCap)
            && EndsWith(before + [str], after)
            && after[|after| - 1] == str
  {
    AddHistoryUnfolds(h, grp, str, now, maxFSec);
    LastKeepsNewest(GetHistory(h, grp), str, HistoryCap);
  }

  /** Adding a message stores the group and counts exactly the message's
      words on top of those counted before. */
  lemma AddHistoryKeys(h: History, grp: int, str: string, now: int, maxFSec: int)
    ensures var r := AddHistory(h, grp, str, now, maxFSec);
      && r.content.Keys == h.content.Keys + {grp}
      && r.frequency.Keys == h.frequency.Keys + set w | w in Words(str)
  {
    var kept := Last(GetHistory(h, grp) + [str], HistoryCap);
    var h' := h.(content := h.content[grp := kept]);
    var ws := Words(str);
    AddHistoryUnfolds(h, grp, str, now, maxFSec);
    var r := UpdateWords(h', ws, now, maxFSec);
    assert r.content == h'.content && r.frequency.Keys == h'.frequency.Keys + set w | w in ws;
    UpdateKeys(h.content, grp, kept);
  }

  /** Storing under a key adds that key and no other. */
  lemma UpdateKeys<K, V>(m: map<K, V>, k: K, v: V)
    ensures m[k := v].Keys == m.Keys + {k}
  {
  }

  /** Adding to one group leaves every other group's history alone. */
  lemma AddHistoryLeavesOtherGroups(h: History, grp: int, str: string, now: int, maxFSec: int, g: int)
    requires g != grp
    ensures GetHistory(AddHistory(h, grp, str, now, maxFSec), g) == GetHistory(h, g)
  {
    AddHistoryUnfolds(h, grp, str, now, maxFSec);
  }

  /** `AddHistory` stores the kept messages, then counts the words. */
  lemma AddHistoryUnfolds(h: History, grp: int, str: string, now: int, maxFSec: int)
    ensures var kept := Last(GetHistory(h, grp) + [str], HistoryCap);
      var r := AddHistory(h, grp, str, now, maxFSec);
      && r == UpdateWords(h.(content := h.content[grp := kept]), Words(str), now, maxFSec)
      && r.content == h.content[grp := kept]
  {
  }

  // ---------------------------------------------------------------------
  // Invariants

  /** Every stored age is a uint16. */
  ghost predicate AgesFit(h: History) {
    forall w, x | w in h.frequency && x in h.frequency[w].times :: x < U16Modulus
  }

  /** The rank is a high-water mark of the counts: it names a counted
      word, and no word has more recent uses than the recorded count. */
  ghost predicate RankDominates(h: History) {
    && (h.rank.None? ==> h.frequency == map[])
    && (h.rank.Some? ==>
          && h.rank.value.word in h.frequency
          && forall w | w in h.frequency :: |h.frequency[w].times| <= h.rank.value.times)
  }

  ghost predicate Valid(h: History) {
    AgesFit(h) && RankDominates(h)
  }

  lemma InitialIsValid()
    ensures Valid(Initial)
  {
  }

  lemma UpdateWordKeepsValid(h: History, s: string, now: int, maxFSec: int)
    requires Valid(h)
    ensures Valid(UpdateWord(h, s, now, maxFSec))
  {
    var r := UpdateWord(h, s, now, maxFSec);
    var prev := if s in h.frequency then h.frequency[s] else TimesElem(now, []);
    assert r.frequency[s] == Touch(prev, now, maxFSec);
    forall w, x | w in r.frequency && x in r.frequency[w].times
      ensures x < U16Modulus
    {
      if w != s {
        assert r.frequency[w] == h.frequency[w];
      }
    }
  }

  lemma {:induction false} UpdateWordsKeepsValid(h: History, words: seq<string>, now: int, maxFSec: int)
    requires Valid(h)
    ensures Valid(UpdateWords(h, words, now, maxFSec))
    decreases |words|
  {
    if words != [] {
      UpdateWordKeepsValid(h, words[0], now, maxFSec);
      UpdateWordsKeepsValid(UpdateWord(h, words[0], now, maxFSec), words[1..], now, maxFSec);
    }
  }

  /** Adding a message keeps the ages in range and the rank dominant. */
  lemma AddHistoryKeepsValid(h: History, grp: int, str: string, now: int, maxFSec: int)
    requires Valid(h)
    ensures Valid(AddHistory(h, grp, str, now, maxFSec))
  {
    var h' := h.(content := h.content[grp := Last(GetHistory(h, grp) + [str], HistoryCap)]);
    UpdateWordsKeepsValid(h', Words(str), now, maxFSec);
  }

  /** The recorded count never goes down, whatever is added. */
  lemma {:induction false} RankNeverDecreases(h: History, words: seq<string>, now: int, maxFSec: int)
    requires h.rank.Some?
    ensures var r := UpdateWords(h, words, now, maxFSec);
            r.rank.Some? && r.rank.value.times >= h.rank.value.times
    decreases |words|
  {
    if words != [] {
      RankNeverDecreases(UpdateWord(h, words[0], now, maxFSec), words[1..], now, maxFSec);
    }
  }

  /** All stored ages lie inside the window. */
  ghost predicate InWindow(h: History, maxFSec: int) {
    forall w, x | w in h.frequency && x in h.frequency[w].times :: x <= maxFSec
  }

  /** No stamp lies in the future. */
  ghost predicate StampsUpTo(h: History, now: int) {
    forall w | w in h.frequency :: h.frequency[w].stamp <= now
  }

  /** With a clock that does not go back and a window that fits a uint16,
      a counted use is forgotten exactly when it gets older than the
      window, and the ages stay inside it. */
  lemma UpdateWordKeepsWindow(h: History, s: string, now: int, maxFSec: int)
    requires 0 <= maxFSec < U16Modulus
    requires InWindow(h, maxFSec) && StampsUpTo(h, now)
    ensures var r := UpdateWord(h, s, now, maxFSec);
            InWindow(r, maxFSec) && StampsUpTo(r, now)
  {
    var r := UpdateWord(h, s, now, maxFSec);
    var prev := if s in h.frequency then h.frequency[s] else TimesElem(now, []);
    var elapsed := now - prev.stamp;
    var kept := Survivors(prev.times, elapsed, maxFSec);
    assert r.frequency[s].times == kept + [0];
    forall y | y in kept
      ensures y <= maxFSec
    {
      var x := SurvivorOrigin(prev.times, y, elapsed, maxFSec);
      assert 0 <= x + elapsed < U16Modulus;
    }
    forall w, x | w in r.frequency && x in r.frequency[w].times
      ensures x <= maxFSec
    {
      if w != s {
        assert r.frequency[w] == h.frequency[w];
      } else if x != 0 {
        assert x in kept;
      }
    }
  }

  /** Touching a word again at the same time, with every age inside the
      window, keeps all of its uses. */
  lemma RecountAtSameTime(h: History, s: string, now: int, maxFSec: int)
    requires s in h.frequency && h.frequency[s].stamp == now && InWindow(h, maxFSec)
    ensures PriorUses(h, s, now, maxFSec) == |h.frequency[s].times|
  {
    var ts := h.frequency[s].times;
    forall i | 0 <= i < |ts| ensures ts[i] + 0 <= maxFSec {
      assert ts[i] in h.frequency[s].times;
    }
    AllInWindow(ts, 0, maxFSec);
  }

  /** An entry left alone keeps its in-window uses. */
  lemma PriorUsesKept(h: History, h': History, w: string, now: int, maxFSec: int)
    requires w in h'.frequency <==> w in h.frequency
    requires w in h.frequency ==> h'.frequency[w] == h.frequency[w]
    ensures PriorUses(h', w, now, maxFSec) == PriorUses(h, w, now, maxFSec)
  {
  }

  /** Counting a message's words: with a clock that does not go back and a
      window that fits a uint16, each word's count becomes its earlier uses
      still inside the window plus its occurrences in the message. */
  lemma {:induction false} UpdateWordsCounts(h: History, words: seq<string>, now: int, maxFSec: int)
    requires 0 <= maxFSec < U16Modulus
    requires InWindow(h, maxFSec) && StampsUpTo(h, now)
    ensures var r := UpdateWords(h, words, now, maxFSec);
      forall w | w in words :: |r.frequency[w].times| == PriorUses(h, w, now, maxFSec) + Occurrences(words, w)
    decreases |words|
  {
    if words != [] {
      var s := words[0];
      var h1 := UpdateWord(h, s, now, maxFSec);
      UpdateWordKeepsWindow(h, s, now, maxFSec);
      UpdateWordsCounts(h1, words[1..], now, maxFSec);
      var r := UpdateWords(h, words, now, maxFSec);
      assert r == UpdateWords(h1, words[1..], now, maxFSec);
      UpdateWordCount(h, s, now, maxFSec);
      RecountAtSameTime(h1, s, now, maxFSec);
      forall w | w in words
        ensures |r.frequency[w].times| == PriorUses(h, w, now, maxFSec) + Occurrences(words, w)
      {
        if w == s {
          if w !in words[1..] {
            OccurrencesAbsent(words[1..], w);
          }
        } else {
          assert w in words[1..];
          PriorUsesKept(h, h1, w, now, maxFSec);
        }
      }
    }
  }

  /** `updateFrequency` counts every word of the message once per
      occurrence, on top of its earlier uses still inside the window. */
  lemma UpdateFrequencyCounts(h: History, str: string, now: int, maxFSec: int)
    requires 0 <= maxFSec < U16Modulus
    requires InWindow(h, maxFSec) && StampsUpTo(h, now)
    ensures var r := UpdateFrequency(h, str, now, maxFSec);
      forall w | w in Words(str) :: |r.frequency[w].times| == PriorUses(h, w, now, maxFSec) + Occurrences(Words(str), w)
  {
    UpdateWordsCounts(h, Words(str), now, maxFSec);
  }

  /** `addHistory` counts the message's words the same way. */
  lemma AddHistoryCounts(h: History, grp: int, str: string, now: int, maxFSec: int)
    requires 0 <= maxFSec < U16Modulus
    requires InWindow(h, maxFSec) && StampsUpTo(h, now)
    ensures var r := AddHistory(h, grp, str, now, maxFSec);
      forall w | w in Words(str) :: |r.frequency[w].times| == PriorUses(h, w, now, maxFSec) + Occurrences(Words(str), w)
  {
    AddHistoryUnfolds(h, grp, str, now, maxFSec);
    var h' := h.(content := h.content[grp := Last(GetHistory(h, grp) + [str], HistoryCap)]);
    UpdateWordsCounts(h', Words(str), now, maxFSec);
    forall w | w in Words(str) ensures PriorUses(h', w, now, maxFSec) == PriorUses(h, w, now, maxFSec) {
      PriorUsesKept(h, h', w, now, maxFSec);
    }
  }

  /** Inside the window and without wrap, a use is kept with its age
      advanced by exactly the elapsed time. */
  lemma SurvivorAged(ts: seq<nat>, x: nat, elapsed: nat, maxFSec: int)
    requires x in ts && x + elapsed <= maxFSec < U16Modulus
    ensures x + elapsed in Survivors(ts, elapsed, maxFSec)
  {
    SurvivorsKeep(ts, x, elapsed, maxFSec);
    assert Age(x, elapsed) == x + elapsed;
  }

  /** The uses a message counts are its words after stars are removed,
      empty pieces included: "a**  a", the first message of group 7 (see
      `AddHistoryToNewGroup`), counts "a" twice and "" once, so the most
      used word is "a" with two uses. */
  lemma EmptyPiecesAreCounted()
    ensures var r := UpdateFrequency(Initial.(content := map[7 := ["a**  a"]]), "a**  a", 100, 600);
            && r.frequency.Keys == {"a", ""}
            && r.frequency["a"] == TimesElem(100, [0, 0])
            && r.frequency[""] == TimesElem(100, [0])
            && r.rank == Some(RankElem("a", 2))
            && GetHistory(r, 7) == ["a**  a"]
  {
    var h0 := Initial.(content := map[7 := ["a**  a"]]);
    ExampleWords();
    ExampleCounts(h0);
  }

  /** The first message of a group becomes its whole history. */
  lemma AddHistoryToNewGroup(h: History, grp: int, str: string, now: int, maxFSec: int)
    requires grp !in h.content
    ensures AddHistory(h, grp, str, now, maxFSec) == UpdateFrequency(h.(content := h.content[grp := [str]]), str, now, maxFSec)
  {
    LastOfFirst(GetHistory(h, grp), str);
  }

  /** A first message is kept on its own. */
  lemma LastOfFirst(before: seq<string>, str: string)
    requires before == []
    ensures Last(before + [str], HistoryCap) == [str]
  {
    assert before + [str] == [str];
  }

  /** The words of the example message. */
  lemma ExampleWords()
    ensures Words("a**  a") == ["a", "", "a"]
  {
    var s := "a**  a";
    assert s[1..] == "**  a";
    assert "**  a"[1..] == "*  a";
    assert "*  a"[1..] == "  a";
    StripStarsKeepsStarFree("  a");
    calc {
      StripStars(s);
      ['a'] + StripStars("**  a");
      ['a'] + StripStars("*  a");
      ['a'] + StripStars("  a");
      "a  a";
    }
    SplitJoin(["a", "", "a"]);
    assert Join(["a", "", "a"]) == "a  a";
  }

  /** Counting the example's words in a history with no counts yet. */
  lemma ExampleCounts(h0: History)
    requires h0.frequency == map[] && h0.rank == None
    ensures var r := UpdateWords(h0, ["a", "", "a"], 100, 600);
            && r.frequency.Keys == {"a", ""}
            && r.frequency["a"] == TimesElem(100, [0, 0])
            && r.frequency[""] == TimesElem(100, [0])
            && r.rank == Some(RankElem("a", 2))
  {
    var h1 := UpdateWord(h0, "a", 100, 600);
    ExampleFirstUse(h0);
    var h2 := UpdateWord(h1, "", 100, 600);
    ExampleEmptyPiece(h1);
    var h3 := UpdateWord(h2, "a", 100, 600);
    ExampleSecondUse(h2);
    assert ["a", "", "a"][1..] == ["", "a"];
    assert ["", "a"][1..] == ["a"];
    assert ["a"][1..] == [];
    assert UpdateWords(h2, ["a"], 100, 600) == h3;
    assert UpdateWords(h1, ["", "a"], 100, 600) == h3;
  }

  lemma ExampleFirstUse(h: History)
    requires h.frequency == map[] && h.rank == None
    ensures var r := UpdateWord(h, "a", 100, 600);
            r.frequency.Keys == {"a"} && r.frequency["a"] == TimesElem(100, [0]) && r.rank == Some(RankElem("a", 1))
  {
    assert Survivors([], 0, 600) == [];
  }

  lemma ExampleEmptyPiece(h: History)
    requires h.frequency.Keys == {"a"} && h.frequency["a"] == TimesElem(100, [0]) && h.rank == Some(RankElem("a", 1))
    ensures var r := UpdateWord(h, "", 100, 600);
            && r.frequency.Keys == {"a", ""} && r.frequency["a"] == TimesElem(100, [0])
            && r.frequency[""] == TimesElem(100, [0]) && r.rank == Some(RankElem("a", 1))
  {
    assert Survivors([], 0, 600) == [];
  }

  lemma ExampleSecondUse(h: History)
    requires && h.frequency.Keys == {"a", ""} && h.frequency["a"] == TimesElem(100, [0])
             && h.frequency[""] == TimesElem(100, [0]) && h.rank == Some(RankElem("a", 1))
    ensures var r := UpdateWord(h, "a", 100, 600);
            && r.frequency.Keys == {"a", ""} && r.frequency["a"] == TimesElem(100, [0, 0])
            && r.frequency[""] == TimesElem(100, [0]) && r.rank == Some(RankElem("a", 2))
  {
    assert [0][1..] == [];
    assert Survivors([0], 0, 600) == [0];
  }
}
