/** The teacher's dashboard (components/TeacherDashboard.tsx): the roster of
    the teacher's own students with their homeroom class and weekly progress,
    the filtered and sorted exercise table, and the batch form that adds
    exercises to the store. */
module TeacherDashboard {
  import opened Types
  import opened Text
  import opened Collections
  import AppStore

  // ---------------------------------------------------------------------
  // The teacher's students and the homeroom class

  /** `myStudents`: the students whose trimmed, lower-cased teacher name is
      the teacher's, in roster order. */
  function MyStudents(allStudents: seq<Student>, teacherName: string): (r: seq<Student>)
    ensures forall s :: s in r <==> s in allStudents && Normalize(s.teacherName) == Normalize(teacherName)
    ensures multiset(r) <= multiset(allStudents)
    ensures r == Filter(allStudents, (s: Student) => Normalize(s.teacherName) == Normalize(teacherName))
  {
    var mine := (s: Student) => Normalize(s.teacherName) == Normalize(teacherName);
    FilterMembers(allStudents, mine);
    Filter(allStudents, mine)
  }

  /** The class column of a list of students. */
  function ClassNames(students: seq<Student>): (r: seq<string>)
    ensures |r| == |students| && forall i :: 0 <= i < |r| ==> r[i] == students[i].className
  {
    seq(|students|, i requires 0 <= i < |students| => students[i].className)
  }

  /** How many of the students are in class `c`. */
  function ClassCount(students: seq<Student>, c: string): nat {
    multiset(ClassNames(students))[c]
  }

  /** In a list without duplicates an element's first index is its only one. */
  lemma FirstIndexOfDistinct<T(!new)>(s: seq<T>, i: nat)
    requires NoDup(s) && i < |s|
    ensures FirstIndex(s, s[i]) == i
  {
    var k := FirstIndex(s, s[i]);
  }

  /** One step of the counting `reduce`: the name `c` gains one occurrence,
      and joins the key list when it is new. */
  function Step<T(==)>(prev: (map<T, nat>, seq<T>), c: T): (map<T, nat>, seq<T>) {
    (prev.0[c := if c in prev.0 then prev.0[c] + 1 else 1],
     if c in prev.0 then prev.1 else prev.1 + [c])
  }

  /** The dictionary and its key list after counting `seen` one name at a
      time. */
  function Tallied<T(==)>(seen: seq<T>): (map<T, nat>, seq<T>)
    decreases |seen|
  {
    if seen == [] then (map[], [])
    else Step(Tallied(seen[..|seen| - 1]), seen[|seen| - 1])
  }

  /** The dictionary has an entry exactly for the names counted. */
  lemma {:induction false} TalliedDomain<T>(seen: seq<T>, x: T)
    ensures x in Tallied(seen).0 <==> x in seen
    decreases |seen|
  {
    if seen != [] {
      var p, c := seen[..|seen| - 1], seen[|seen| - 1];
      assert seen == p + [c];
      TalliedDomain(p, x);
    }
  }

  /** Each entry holds the number of occurrences of its name. */
  lemma {:induction false} TalliedCount<T>(seen: seq<T>, x: T)
    requires x in Tallied(seen).0
    ensures Tallied(seen).0[x] == multiset(seen)[x]
    decreases |seen|
  {
    var p, c := seen[..|seen| - 1], seen[|seen| - 1];
    assert seen == p + [c];
    MultisetSnoc(p, c);
    TalliedDomain(p, x);
    if x in Tallied(p).0 {
      TalliedCount(p, x);
    }
  }

  /** The key list holds the names in order of first appearance. */
  lemma {:induction false} TalliedKeys<T(!new)>(seen: seq<T>)
    ensures Tallied(seen).1 == Dedup(seen)
    decreases |seen|
  {
    if seen != [] {
      var p, c := seen[..|seen| - 1], seen[|seen| - 1];
      assert seen == p + [c];
      TalliedKeys(p);
      TalliedDomain(p, c);
      DedupSnoc(p, c);
    }
  }

  lemma MultisetSnoc<T>(seen: seq<T>, c: T)
    ensures multiset(seen + [c]) == multiset(seen) + multiset{c}
  {
  }

  /** The counting `reduce`: one dictionary entry per name holding its number
      of occurrences, and the keys in the order a dictionary lists them
      (first appearance). */
  method CountOccurrences<T(==, !new)>(names: seq<T>) returns (counts: map<T, nat>, keys: seq<T>)
    ensures keys == Dedup(names)
    ensures forall c :: c in counts <==> c in names
    ensures forall c :: c in counts ==> counts[c] == multiset(names)[c]
  {
    counts, keys := map[], [];
    var i := 0;
    while i < |names|
      invariant 0 <= i <= |names|
      invariant (counts, keys) == Tallied(names[..i])
    {
      var c := names[i];
      assert names[..i + 1][..i] == names[..i];
      if c in counts {
        counts := counts[c := counts[c] + 1];
      } else {
        keys := keys + [c];
        counts := counts[c := 1];
      }
      i := i + 1;
    }
    assert names[..i] == names;
    TalliedKeys(names);
    forall c
      ensures c in counts <==> c in names
    {
      TalliedDomain(names, c);
    }
    forall c | c in counts
      ensures counts[c] == multiset(names)[c]
    {
      TalliedCount(names, c);
    }
  }

  /** `keys.reduce((a, b) => counts[a] > counts[b] ? a : b)` on a non-empty
      list: a key of maximal count, and the last one of them, because the
      current key is kept only while strictly greater. */
  method LastMaximal<T>(keys: seq<T>, counts: map<T, nat>) returns (best: T, ghost bestIndex: nat)
    requires |keys| > 0
    requires forall j :: 0 <= j < |keys| ==> keys[j] in counts
    ensures bestIndex < |keys| && best == keys[bestIndex]
    ensures forall j :: 0 <= j < |keys| ==> counts[keys[j]] <= counts[best]
    ensures forall j :: bestIndex < j < |keys| ==> counts[keys[j]] < counts[best]
  {
    best, bestIndex := keys[0], 0;
    var k := 1;
    while k < |keys|
      invariant 1 <= k <= |keys|
      invariant bestIndex < k && best == keys[bestIndex]
      invariant forall j :: 0 <= j < k ==> counts[keys[j]] <= counts[best]
      invariant forall j :: bestIndex < j < k ==> counts[keys[j]] < counts[best]
    {
      var b := keys[k];
      if !(counts[best] > counts[b]) {
        best, bestIndex := b, k;
      }
      k := k + 1;
    }
  }

  /** `homeroomClass`: a class of maximal count with every later key
      strictly smaller (the later key wins a tie), and none exactly when the
      list is empty. */
  method HomeroomClass(myStudents: seq<Student>) returns (r: Option<string>)
    ensures r.None? <==> myStudents == []
    ensures r.Some? ==> r.value in ClassNames(myStudents)
    ensures r.Some? ==> forall c :: ClassCount(myStudents, c) <= ClassCount(myStudents, r.value)
    ensures r.Some? ==>
      var keys := Dedup(ClassNames(myStudents));
      r.value in keys &&
      forall j :: FirstIndex(keys, r.value) < j < |keys| ==>
        ClassCount(myStudents, keys[j]) < ClassCount(myStudents, r.value)
  {
    if |myStudents| == 0 {
      return None;
    }
    var names := ClassNames(myStudents);
    var classCounts, keys := CountOccurrences(names);
    assert names[0] in keys;
    var best, bestIndex := LastMaximal(keys, classCounts);
    forall c | true
      ensures multiset(names)[c] <= multiset(names)[best]
    {
      if c in keys {
        var j := FirstIndex(keys, c);
        assert classCounts[keys[j]] <= classCounts[best];
      }
    }
    FirstIndexOfDistinct(keys, bestIndex);
    return Some(best);
  }

  // ---------------------------------------------------------------------
  // Weekly progress

  /** `Math.round(((cur - prev) / prev) * 100)` for `prev > 0`, written as an
      integer division; 100 for a student who had nothing last week and
      something this week; 0 otherwise. For `prev > 0` the result is the
      rounding of the percentage change `x`, halves rounded up as
      `Math.round` does: `p - 1/2 <= x < p + 1/2`. */
  function Progress(previousWeekCorrect: int, currentWeekCorrect: int): (p: int)
    ensures previousWeekCorrect > 0 ==>
      previousWeekCorrect * (2 * p - 1)
        <= 200 * (currentWeekCorrect - previousWeekCorrect)
        < previousWeekCorrect * (2 * p + 1)
    ensures previousWeekCorrect <= 0 ==> p == (if currentWeekCorrect > 0 then 100 else 0)
  {
    if previousWeekCorrect > 0 then
      var a, b := 200 * (currentWeekCorrect - previousWeekCorrect) + previousWeekCorrect, 2 * previousWeekCorrect;
      var q := a / b;
      assert q * b <= a < q * b + b;
      assert q * b == previousWeekCorrect * (2 * q);
      q
    else if currentWeekCorrect > 0 then 100
    else 0
  }

  lemma MulLe(a: int, x: int, y: int)
    requires a > 0 && x <= y
    ensures a * x <= a * y
  {
    assert a * y - a * x == a * (y - x);
  }

  /** The rounding determines the result: the only integer within half a
      percent of the change. */
  lemma ProgressIsUnique(prev: int, cur: int, p: int)
    requires prev > 0
    requires prev * (2 * p - 1) <= 200 * (cur - prev) < prev * (2 * p + 1)
    ensures Progress(prev, cur) == p
  {
    var q := Progress(prev, cur);
    if q < p {
      MulLe(prev, 2 * q + 1, 2 * p - 1);
    } else if q > p {
      MulLe(prev, 2 * p + 1, 2 * q - 1);
    }
  }

  /** For a student with results last week the two thresholds are ratios of
      the weekly counts: praise from 19.5 % up (`cur/prev >= 1.195`), concern
      below -0.5 % (`cur/prev < 0.995`). */
  lemma ProgressThresholds(prev: int, cur: int)
    requires prev > 0
    ensures Progress(prev, cur) >= 20 <==> 200 * cur >= 239 * prev
    ensures Progress(prev, cur) < 0 <==> 200 * cur < 199 * prev
  {
    var p := Progress(prev, cur);
    if p >= 20 {
      MulLe(prev, 39, 2 * p - 1);
    } else {
      MulLe(prev, 2 * p + 1, 39);
    }
    if p < 0 {
      MulLe(prev, 2 * p + 1, -1);
    } else {
      MulLe(prev, -1, 2 * p - 1);
    }
  }

  /** More correct answers this week never lower the progress. */
  lemma ProgressMonotone(prev: int, cur1: int, cur2: int)
    requires cur1 <= cur2
    ensures Progress(prev, cur1) <= Progress(prev, cur2)
  {
    if prev > 0 {
      var p1, p2 := Progress(prev, cur1), Progress(prev, cur2);
      if p1 > p2 {
        MulLe(prev, 2 * p2 + 1, 2 * p1 - 1);
      }
    }
  }

  /** The progress of the initial roster, and a halfway case, which rounds
      up (`Math.round(-2.5) == -2`). */
  lemma InitialRosterProgress()
    ensures Progress(10, 13) == 30 && Progress(15, 12) == -20 && Progress(12, 12) == 0
    ensures Progress(8, 11) == 38 && Progress(14, 10) == -29
    ensures Progress(40, 39) == -2 && Progress(0, 3) == 100 && Progress(0, 0) == 0
  {
  }

  datatype ProgressMessage =
    | Praise(percent: int, moreCorrect: int)
    | Difficulty(dropPercent: int)
    | Steady

  /** The text colour of a progress line: `text-green-600`, `text-red-600`
      or `text-gray-600`. */
  datatype TextColor = Green | Red | Gray

  /** `getStudentProgressInfo`: the progress, and the message and colour of
      its band: from 20 up praise (with the percentage and how many more
      answers were correct), below 0 concern (with the size of the drop),
      otherwise the steady message. */
  method GetStudentProgressInfo(student: Student) returns (progress: int, message: ProgressMessage, colorClass: TextColor)
    ensures progress == Progress(student.previousWeekCorrect, student.currentWeekCorrect)
    ensures message.Praise? <==> progress >= 20
    ensures message.Difficulty? <==> progress < 0
    ensures message.Praise? ==>
      message == Praise(progress, student.currentWeekCorrect - student.previousWeekCorrect) && colorClass == Green
    ensures message.Difficulty? ==> message == Difficulty(-progress) && colorClass == Red
    ensures message.Steady? ==> colorClass == Gray
  {
    var currentWeekCorrect, previousWeekCorrect := student.currentWeekCorrect, student.previousWeekCorrect;
    progress := 0;
    message := Steady;
    colorClass := Gray;
    if previousWeekCorrect > 0 {
      progress := Progress(previousWeekCorrect, currentWeekCorrect);
    } else if currentWeekCorrect > 0 {
      progress := 100;
    }
    if progress >= 20 {
      message := Praise(progress, currentWeekCorrect - previousWeekCorrect);
      colorClass := Green;
    } else if progress < 0 {
      message := Difficulty(if progress < 0 then -progress else progress);
      colorClass := Red;
    } else {
      message := Steady;
    }
  }

  // ---------------------------------------------------------------------
  // Sorting

  datatype SortKey = QUESTION | TOPIC | GRADE | LEVEL
  datatype Direction = ASCENDING | DESCENDING
  datatype SortConfig = SortConfig(key: Option<SortKey>, direction: Direction)

  const InitialSortConfig := SortConfig(None, ASCENDING)

  /** `requestSort`: descending when the key clicked is the current one and
      the order is ascending; ascending on that key otherwise. */
  function RequestSort(config: SortConfig, key: SortKey): (r: SortConfig)
    ensures r.key == Some(key)
    ensures r.direction == DESCENDING <==> config.key == Some(key) && config.direction == ASCENDING
  {
    if config.key == Some(key) && config.direction == ASCENDING then SortConfig(Some(key), DESCENDING)
    else SortConfig(Some(key), ASCENDING)
  }

  /** Clicking the same column three times is clicking it once: ascending,
      descending, and ascending again. */
  lemma RequestSortCycles(config: SortConfig, key: SortKey)
    ensures var once := RequestSort(config, key);
      RequestSort(RequestSort(once, key), key) == once
  {
  }

  /** The field a column sorts on; a level sorts by its display string. */
  function SortValue(e: Exercise, key: SortKey): string {
    match key
    case QUESTION => e.question
    case TOPIC => e.topic
    case GRADE => e.grade
    case LEVEL => e.level.Value()
  }

  /** The comparator returns a negative number: `x` goes strictly before `y`. */
  predicate Before(x: Exercise, y: Exercise, key: SortKey, direction: Direction) {
    if direction == ASCENDING then LexLess(SortValue(x, key), SortValue(y, key))
    else LexLess(SortValue(y, key), SortValue(x, key))
  }

  lemma BeforeAsymmetric(x: Exercise, y: Exercise, key: SortKey, direction: Direction)
    ensures !(Before(x, y, key, direction) && Before(y, x, key, direction))
  {
    LexTrichotomy(SortValue(x, key), SortValue(y, key));
  }

  /** "Not after" is transitive, so the comparator is a total preorder. */
  lemma NotBeforeTransitive(x: Exercise, y: Exercise, z: Exercise, key: SortKey, direction: Direction)
    requires !Before(y, x, key, direction) && !Before(z, y, key, direction)
    ensures !Before(z, x, key, direction)
  {
    var vx, vy, vz := SortValue(x, key), SortValue(y, key), SortValue(z, key);
    LexTrichotomy(vx, vy);
    LexTrichotomy(vy, vz);
    if direction == ASCENDING {
      if LexLess(vz, vx) {
        if LexLess(vx, vy) { LexTransitive(vz, vx, vy); }
      }
    } else {
      if LexLess(vx, vz) {
        if LexLess(vz, vy) { LexTransitive(vx, vz, vy); }
      }
    }
  }

  /** No element goes strictly before one that precedes it. */
  predicate SortedBy(s: seq<Exercise>, key: SortKey, direction: Direction) {
    forall i, j :: 0 <= i < j < |s| ==> !Before(s[j], s[i], key, direction)
  }

  /** `filtered.sort(comparator)`, in place; an insertion sort by adjacent
      swaps stands for the engine's sort. */
  method SortInPlace(a: array<Exercise>, key: SortKey, direction: Direction)
    modifies a
    ensures SortedBy(a[..], key, direction)
    ensures multiset(a[..]) == multiset(old(a[..]))
  {
    var i := 0;
    while i < a.Length
      invariant 0 <= i <= a.Length
      invariant SortedBy(a[..i], key, direction)
      invariant multiset(a[..]) == multiset(old(a[..]))
    {
      InsertLast(a, i, key, direction);
      i := i + 1;
    }
    assert a[..] == a[..a.Length];
  }

  /** The first `n + 1` elements are in order, except that the one at `j`
      may go before some of those ahead of it. */
  predicate SortedExcept(s: seq<Exercise>, n: nat, j: nat, key: SortKey, direction: Direction)
    requires n < |s|
  {
    forall p, q :: 0 <= p < q <= n && q != j ==> !Before(s[q], s[p], key, direction)
  }

  /** One swap moves the out-of-order element one place down. */
  lemma SwapDown(s: seq<Exercise>, n: nat, j: nat, key: SortKey, direction: Direction)
    requires 0 < j <= n < |s| && SortedExcept(s, n, j, key, direction)
    requires Before(s[j], s[j - 1], key, direction)
    ensures SortedExcept(s[j - 1 := s[j]][j := s[j - 1]], n, j - 1, key, direction)
    ensures multiset(s[j - 1 := s[j]][j := s[j - 1]]) == multiset(s)
  {
    BeforeAsymmetric(s[j], s[j - 1], key, direction);
    var t := s[j - 1 := s[j]][j := s[j - 1]];
    forall p, q | 0 <= p < q <= n && q != j - 1
      ensures !Before(t[q], t[p], key, direction)
    {
      if q == j && p == j - 1 {
      } else if q == j {
        assert t[q] == s[j - 1] && t[p] == s[p];
      } else if p == j - 1 {
        assert t[p] == s[j] && t[q] == s[q];
      } else if p == j {
        assert t[p] == s[j - 1] && t[q] == s[q];
      } else {
        assert t[p] == s[p] && t[q] == s[q];
      }
    }
  }

  /** Once the element at `j` does not go before its predecessor, the first
      `n + 1` elements are sorted. */
  lemma Settled(s: seq<Exercise>, n: nat, j: nat, key: SortKey, direction: Direction)
    requires j <= n < |s| && SortedExcept(s, n, j, key, direction)
    requires j == 0 || !Before(s[j], s[j - 1], key, direction)
    ensures SortedBy(s[..n + 1], key, direction)
  {
    forall p | 0 <= p < j - 1
      ensures !Before(s[j], s[p], key, direction)
    {
      NotBeforeTransitive(s[p], s[j - 1], s[j], key, direction);
    }
  }

  /** Moves `a[i]` down past every element that it goes strictly before, so
      that the sorted prefix grows by one. */
  method InsertLast(a: array<Exercise>, i: nat, key: SortKey, direction: Direction)
    requires i < a.Length && SortedBy(a[..i], key, direction)
    modifies a
    ensures SortedBy(a[..i + 1], key, direction)
    ensures multiset(a[..]) == multiset(old(a[..]))
  {
    var j := i;
    assert SortedExcept(a[..], i, j, key, direction);
    while j > 0 && Before(a[j], a[j - 1], key, direction)
      invariant 0 <= j <= i
      invariant multiset(a[..]) == multiset(old(a[..]))
      invariant SortedExcept(a[..], i, j, key, direction)
    {
      ghost var before := a[..];
      SwapDown(before, i, j, key, direction);
      a[j - 1], a[j] := a[j], a[j - 1];
      assert a[..] == before[j - 1 := before[j]][j := before[j - 1]];
      j := j - 1;
    }
    Settled(a[..], i, j, key, direction);
  }

  // ---------------------------------------------------------------------
  // The exercise table

  /** The topic filter; `'all'` lets everything through. */
  predicate TopicSelected(e: Exercise, selectedTopic: string) {
    selectedTopic == "all" || e.topic == selectedTopic
  }

  /** The search filter: an empty query lets everything through, otherwise
      the lower-cased query (not trimmed) must occur in the lower-cased
      question or topic. */
  predicate MatchesQuery(e: Exercise, searchQuery: string) {
    searchQuery == "" ||
      Contains(ToLower(e.question), ToLower(searchQuery)) || Contains(ToLower(e.topic), ToLower(searchQuery))
  }

  /** `ex => ex.topic === selectedTopic`. */
  function HasTopic(selectedTopic: string): Exercise -> bool {
    (e: Exercise) => e.topic == selectedTopic
  }

  /** The search predicate for an already lower-cased query. */
  function Mentions(lowercasedQuery: string): Exercise -> bool {
    (e: Exercise) => Contains(ToLower(e.question), lowercasedQuery) || Contains(ToLower(e.topic), lowercasedQuery)
  }

  /** The exercises the two filters let through, in catalogue order. */
  function Visible(exercises: seq<Exercise>, selectedTopic: string, searchQuery: string): (r: seq<Exercise>)
    ensures multiset(r) <= multiset(exercises)
  {
    var byTopic := if selectedTopic != "all" then Filter(exercises, HasTopic(selectedTopic)) else exercises;
    if searchQuery != "" then
      var q := ToLower(searchQuery);
      Filter(byTopic, Mentions(q))
    else byTopic
  }

  /** The filtered list holds exactly the exercises passing both filters. */
  lemma VisibleMembers(exercises: seq<Exercise>, selectedTopic: string, searchQuery: string)
    ensures forall e :: e in Visible(exercises, selectedTopic, searchQuery) <==>
      e in exercises && TopicSelected(e, selectedTopic) && MatchesQuery(e, searchQuery)
  {
    var byTopic := if selectedTopic != "all" then Filter(exercises, HasTopic(selectedTopic)) else exercises;
    if selectedTopic != "all" {
      FilterMembers(exercises, HasTopic(selectedTopic));
    }
    if searchQuery != "" {
      var q := ToLower(searchQuery);
      FilterMembers(byTopic, Mentions(q));
    }
  }

  /** Both filters together are one filter on the catalogue, so the list
      keeps the catalogue's relative order. */
  lemma VisibleIsOneFilter(exercises: seq<Exercise>, selectedTopic: string, searchQuery: string)
    ensures Visible(exercises, selectedTopic, searchQuery) ==
      Filter(exercises, (e: Exercise) => TopicSelected(e, selectedTopic) && MatchesQuery(e, searchQuery))
  {
    var both := (e: Exercise) => TopicSelected(e, selectedTopic) && MatchesQuery(e, searchQuery);
    var topicOnly := HasTopic(selectedTopic);
    var queryOnly := Mentions(ToLower(searchQuery));
    if selectedTopic != "all" && searchQuery != "" {
      FilterFilter(exercises, topicOnly, queryOnly, both);
    } else if selectedTopic != "all" {
      FilterSame(exercises, topicOnly, both);
    } else if searchQuery != "" {
      FilterSame(exercises, queryOnly, both);
    } else {
      FilterSame(exercises, (e: Exercise) => true, both);
      FilterAll(exercises);
    }
  }

  lemma {:induction false} FilterSame<T>(s: seq<T>, p: T -> bool, q: T -> bool)
    requires forall x :: p(x) == q(x)
    ensures Filter(s, p) == Filter(s, q)
  {
    if s != [] {
      FilterSame(s[1..], p, q);
    }
  }

  lemma {:induction false} FilterAll<T>(s: seq<T>)
    ensures Filter(s, x => true) == s
  {
    if s != [] {
      FilterAll(s[1..]);
    }
  }

  /** `sortedAndFilteredExercises`: the filtered list, then sorted in place
      when a column is chosen. */
  method SortedAndFilteredExercises(exercises: seq<Exercise>, selectedTopic: string, searchQuery: string,
                                    sortConfig: SortConfig)
    returns (r: seq<Exercise>)
    ensures sortConfig.key.None? ==> r == Visible(exercises, selectedTopic, searchQuery)
    ensures multiset(r) == multiset(Visible(exercises, selectedTopic, searchQuery))
    ensures sortConfig.key.Some? ==> SortedBy(r, sortConfig.key.value, sortConfig.direction)
  {
    var filtered := exercises;
    if selectedTopic != "all" {
      filtered := Filter(filtered, HasTopic(selectedTopic));
    }
    if searchQuery != "" {
      var lowercasedQuery := ToLower(searchQuery);
      filtered := Filter(filtered, Mentions(lowercasedQuery));
    }
    if sortConfig.key.Some? {
      var a := new Exercise[|filtered|](i requires 0 <= i < |filtered| => filtered[i]);
      assert a[..] == filtered;
      SortInPlace(a, sortConfig.key.value, sortConfig.direction);
      filtered := a[..];
    }
    r := filtered;
  }

  // ---------------------------------------------------------------------
  // The batch form

  /** One question of the batch; `key` is the clock reading it was made at. */
  datatype BatchItem = BatchItem(key: int, question: string, answer: string, hint: string, level: Level)

  /** The fields shared by the whole batch. */
  datatype BatchDetails = BatchDetails(topic: string, grade: string, skill: string)

  /** An edit of one field of a batch item. */
  datatype BatchEdit = SetQuestion(question: string) | SetAnswer(answer: string) | SetHint(hint: string) | SetLevel(level: Level)

  const InitialDetails := BatchDetails("", "Lớp 1", "")

  function EmptyItem(key: int, level: Level): BatchItem {
    BatchItem(key, "", "", "", level)
  }

  function Edited(item: BatchItem, edit: BatchEdit): (r: BatchItem)
    ensures r.key == item.key
    ensures edit.SetQuestion? ==> r == item.(question := edit.question)
    ensures edit.SetAnswer? ==> r == item.(answer := edit.answer)
    ensures edit.SetHint? ==> r == item.(hint := edit.hint)
    ensures edit.SetLevel? ==> r == item.(level := edit.level)
  {
    match edit
    case SetQuestion(q) => item.(question := q)
    case SetAnswer(a) => item.(answer := a)
    case SetHint(h) => item.(hint := h)
    case SetLevel(l) => item.(level := l)
  }

  /** `prev.filter((_, idx) => idx !== i)`: the item at `i` is dropped and
      the order of the rest kept; an index past the end drops nothing. */
  function WithoutIndex<T>(s: seq<T>, i: nat): (r: seq<T>)
    ensures i < |s| ==> |r| == |s| - 1
    ensures i >= |s| ==> r == s
    ensures forall k :: 0 <= k < |r| ==> r[k] == (if k < i then s[k] else s[k + 1])
  {
    if i < |s| then s[..i] + s[i + 1..] else s
  }

  /** An item is submitted when its trimmed question and answer are both
      non-empty; the hint may be empty. */
  predicate IsValidItem(item: BatchItem) {
    Trim(item.question) != "" && Trim(item.answer) != ""
  }

  function ValidItems(batch: seq<BatchItem>): (r: seq<BatchItem>)
    ensures forall item :: item in r <==> item in batch && IsValidItem(item)
  {
    FilterMembers(batch, IsValidItem);
    Filter(batch, IsValidItem)
  }

  /** `exercisesToAdd`: the items as they are (untrimmed), with the batch's
      topic, grade and skill. */
  function Stamped(items: seq<BatchItem>, details: BatchDetails): (r: seq<ExerciseDraft>)
    ensures |r| == |items|
    ensures forall k :: 0 <= k < |r| ==>
      r[k] == ExerciseDraft(details.topic, details.grade, details.skill, items[k].level,
                            items[k].question, items[k].answer, items[k].hint)
  {
    seq(|items|, k requires 0 <= k < |items| =>
      ExerciseDraft(details.topic, details.grade, details.skill, items[k].level,
                    items[k].question, items[k].answer, items[k].hint))
  }

  /** Everything a submit adds is in the batch's topic, grade and skill, and
      has a question and an answer that are not blank; and as many are added
      as the batch has valid items. */
  lemma SubmittedDraftsAreValid(batch: seq<BatchItem>, details: BatchDetails)
    ensures |Stamped(ValidItems(batch), details)| == CountWhere(batch, IsValidItem)
    ensures forall d :: d in Stamped(ValidItems(batch), details) ==>
      d.topic == details.topic && d.grade == details.grade && d.skill == details.skill &&
      Trim(d.question) != "" && Trim(d.answer) != ""
  {
    CountIsFilterLength(batch, IsValidItem);
    var v := ValidItems(batch);
    var r := Stamped(v, details);
    forall d | d in r
      ensures d.topic == details.topic && d.grade == details.grade && d.skill == details.skill
      ensures Trim(d.question) != "" && Trim(d.answer) != ""
    {
      var k :| 0 <= k < |r| && r[k] == d;
      assert v[k] in v;
    }
  }

  /** The browser's own check before the submit handler runs: no `required`
      field of the form (topic, grade, skill, and each item's question and
      answer) is empty. White space counts as filled. */
  predicate FormFilled(details: BatchDetails, batch: seq<BatchItem>) {
    details.topic != "" && details.grade != "" && details.skill != "" &&
    forall k :: 0 <= k < |batch| ==> batch[k].question != "" && batch[k].answer != ""
  }

  /** On a form the browser lets through, the handler's filter drops only
      items whose question or answer is non-empty white space. */
  lemma FilledFormDropsOnlyBlankItems(details: BatchDetails, batch: seq<BatchItem>)
    requires FormFilled(details, batch)
    ensures forall k :: 0 <= k < |batch| && !IsValidItem(batch[k]) ==>
      (batch[k].question != "" && AllSpace(batch[k].question)) ||
      (batch[k].answer != "" && AllSpace(batch[k].answer))
  {
    forall k | 0 <= k < |batch| && !IsValidItem(batch[k])
      ensures (batch[k].question != "" && AllSpace(batch[k].question)) ||
              (batch[k].answer != "" && AllSpace(batch[k].answer))
    {
      TrimEmptyIffAllSpace(batch[k].question);
      TrimEmptyIffAllSpace(batch[k].answer);
    }
  }

  /** The dashboard's own state. */
  class Dashboard {
    var isModalOpen: bool
    var batchDetails: BatchDetails
    var newExercisesBatch: seq<BatchItem>
    var selectedTopic: string
    var searchQuery: string
    var sortConfig: SortConfig

    /** The dashboard as first shown. `now` is the clock reading that keys
        the first batch item. */
    constructor (now: int)
      ensures !isModalOpen && batchDetails == InitialDetails
      ensures newExercisesBatch == [EmptyItem(now, ADVANCED)]
      ensures selectedTopic == "all" && searchQuery == "" && sortConfig == InitialSortConfig
    {
      isModalOpen := false;
      batchDetails := InitialDetails;
      newExercisesBatch := [EmptyItem(now, ADVANCED)];
      selectedTopic := "all";
      searchQuery := "";
      sortConfig := InitialSortConfig;
    }

    /** A click on a column header. */
    method RequestSortOn(key: SortKey)
      modifies this`sortConfig
      ensures sortConfig == RequestSort(old(sortConfig), key)
    {
      var direction := ASCENDING;
      if sortConfig.key == Some(key) && sortConfig.direction == ASCENDING {
        direction := DESCENDING;
      }
      sortConfig := SortConfig(Some(key), direction);
    }

    /** `handleOpenModal`: the form is reset (one empty advanced item, keyed
        by `now`) and shown. */
    method HandleOpenModal(now: int)
      modifies this`isModalOpen, this`batchDetails, this`newExercisesBatch
      ensures isModalOpen && batchDetails == InitialDetails
      ensures newExercisesBatch == [EmptyItem(now, ADVANCED)]
    {
      batchDetails := InitialDetails;
      newExercisesBatch := [EmptyItem(now, ADVANCED)];
      isModalOpen := true;
    }

    /** The cancel button and the modal's close. */
    method CloseModal()
      modifies this`isModalOpen
      ensures !isModalOpen
    {
      isModalOpen := false;
    }

    /** An edit of the shared fields: topic, grade or skill. */
    method SetBatchDetails(details: BatchDetails)
      modifies this`batchDetails
      ensures batchDetails == details
    {
      batchDetails := details;
    }

    /** An item's `onChange`: only field `edit` of item `i` changes. The form
        only renders indices of the list. */
    method EditBatchItem(i: nat, edit: BatchEdit)
      requires i < |newExercisesBatch|
      modifies this`newExercisesBatch
      ensures newExercisesBatch == old(newExercisesBatch)[i := Edited(old(newExercisesBatch)[i], edit)]
    {
      var updated := newExercisesBatch;
      updated := updated[i := Edited(updated[i], edit)];
      newExercisesBatch := updated;
    }

    /** An item's remove button. It is shown only while the batch holds more
        than one item (`isRemovable`), so the batch never becomes empty. */
    method RemoveBatchItem(i: nat)
      requires 1 < |newExercisesBatch| && i < |newExercisesBatch|
      modifies this`newExercisesBatch
      ensures newExercisesBatch == WithoutIndex(old(newExercisesBatch), i)
      ensures |newExercisesBatch| == |old(newExercisesBatch)| - 1 >= 1
    {
      newExercisesBatch := WithoutIndex(newExercisesBatch, i);
    }

    /** "Add another question": an empty basic item keyed by `now`. */
    method AddBatchItem(now: int)
      modifies this`newExercisesBatch
      ensures newExercisesBatch == old(newExercisesBatch) + [EmptyItem(now, BASIC)]
    {
      newExercisesBatch := newExercisesBatch + [EmptyItem(now, BASIC)];
    }

    /** `handleSubmit`. Without a valid item nothing changes (the page only
        shows an alert). Otherwise the valid items, stamped with the batch
        details, are added to the store, the topic is added when it is not
        yet listed, and the form closes. `added` is the count the
        confirmation reports; `newId` stands for the store's ids. */
    method HandleSubmit(app: AppStore.App, newId: nat -> string) returns (added: nat)
      requires app.Valid()
      modifies this`isModalOpen, app`exercises, app`topics
      ensures app.Valid()
      ensures added == |ValidItems(newExercisesBatch)|
      ensures added == 0 ==>
        app.exercises == old(app.exercises) && app.topics == old(app.topics) && isModalOpen == old(isModalOpen)
      ensures added > 0 ==>
        app.exercises == old(app.exercises) + AppStore.WithIds(Stamped(ValidItems(newExercisesBatch), batchDetails), newId) &&
        app.topics == AppendNew(old(app.topics), batchDetails.topic) &&
        !isModalOpen
    {
      var validExercises := ValidItems(newExercisesBatch);
      added := |validExercises|;
      if added == 0 {
        return;
      }
      ghost var before := app.topics;
      ghost var listed := app.exercises;
      var exercisesToAdd := Stamped(validExercises, batchDetails);
      var topic := batchDetails.topic;
      app.HandleAddExercise(exercisesToAdd, newId);
      assert app.exercises == listed + AppStore.WithIds(exercisesToAdd, newId);
      if topic !in app.topics {
        app.HandleAddTopic(topic);
      }
      assert app.topics == AppendNew(before, topic);
      isModalOpen := false;
    }

    /** Pressing "save": the browser refuses a form with an empty required
        field and nothing happens; otherwise `handleSubmit` runs. */
    method SubmitForm(app: AppStore.App, newId: nat -> string) returns (submitted: bool, added: nat)
      requires app.Valid()
      modifies this`isModalOpen, app`exercises, app`topics
      ensures app.Valid()
      ensures submitted <==> FormFilled(batchDetails, newExercisesBatch)
      ensures !submitted ==>
        added == 0 && app.exercises == old(app.exercises) && app.topics == old(app.topics) &&
        isModalOpen == old(isModalOpen)
      ensures submitted ==> added == |ValidItems(newExercisesBatch)|
      ensures submitted && added == 0 ==>
        app.exercises == old(app.exercises) && app.topics == old(app.topics) && isModalOpen == old(isModalOpen)
      ensures submitted && added > 0 ==>
        app.exercises == old(app.exercises) + AppStore.WithIds(Stamped(ValidItems(newExercisesBatch), batchDetails), newId) &&
        app.topics == AppendNew(old(app.topics), batchDetails.topic) &&
        !isModalOpen
    {
      submitted := FormFilled(batchDetails, newExercisesBatch);
      added := 0;
      if submitted {
        added := HandleSubmit(app, newId);
      }
    }
  }
}
