/**
 * The two read queries of the synchronisation module: a group's lessons
 * ordered by week mark, and a professor's lessons found by a
 * case-insensitive substring of the name.
 */
module Queries {
  import opened Wrappers
  import opened Seqs
  import opened Models
  import opened Reconcile

  // ---------------------------------------------------------------------
  // `get_schedule_for_group`
  // ---------------------------------------------------------------------

  /** The `case` of the ordering: every, plus, minus, anything else. */
  function WeekMarkRank(l: Lesson): (k: int)
    ensures 1 <= k <= 4
    ensures k == 1 <==> l.weekMark == Some("every")
    ensures k == 2 <==> l.weekMark == Some("plus")
    ensures k == 3 <==> l.weekMark == Some("minus")
    ensures k == 4 <==> l.weekMark !in {Some("every"), Some("plus"), Some("minus")}
  {
    if l.weekMark == Some("every") then 1
    else if l.weekMark == Some("plus") then 2
    else if l.weekMark == Some("minus") then 3
    else 4
  }

  predicate OfGroup(groupId: Id, l: Lesson)
  {
    l.groupId == groupId
  }

  /** The group's lessons ordered by week-mark rank; an unknown group gives none. */
  function ScheduleForGroup(db: Db, groupName: string): seq<Lesson>
  {
    match FindGroup(db, groupName)
    case None => []
    case Some(g) => SortBy(Filter(db.lessons, (l: Lesson) => OfGroup(g.id, l)), ByKey(WeekMarkRank))
  }

  /**
   * An unknown group gives an empty list; otherwise the result holds
   * exactly that group's lessons, each as often as stored, ordered every,
   * plus, minus, other. The database gives no order among equal ranks, so
   * none is promised.
   */
  lemma ScheduleForGroupOrdered(db: Db, groupName: string)
    ensures FindGroup(db, groupName).None? ==> ScheduleForGroup(db, groupName) == []
    ensures FindGroup(db, groupName).Some? ==>
      var g := FindGroup(db, groupName).value;
      var r := ScheduleForGroup(db, groupName);
      SortedBy(r, ByKey(WeekMarkRank))
      && multiset(r) == multiset(Filter(db.lessons, (l: Lesson) => OfGroup(g.id, l)))
      && forall l :: l in r <==> l in db.lessons && l.groupId == g.id
  {
    if FindGroup(db, groupName).Some? {
      var g := FindGroup(db, groupName).value;
      var own := Filter(db.lessons, (l: Lesson) => OfGroup(g.id, l));
      ByKeyTotal(WeekMarkRank);
      SortBySorted(own, ByKey(WeekMarkRank));
      var r := SortBy(own, ByKey(WeekMarkRank));
      forall l ensures l in r <==> l in own {
        assert l in r <==> l in multiset(r);
        assert l in own <==> l in multiset(own);
      }
    }
  }

  // ---------------------------------------------------------------------
  // `get_lesson_for_professor`
  // ---------------------------------------------------------------------

  /** SQLite's `lower`: ASCII letters only. */
  function AsciiLower(s: string): (r: string)
    ensures |r| == |s|
    ensures forall i :: 0 <= i < |s| ==> r[i] == if 'A' <= s[i] <= 'Z' then (s[i] as int + 32) as char else s[i]
  {
    seq(|s|, i requires 0 <= i < |s| => if 'A' <= s[i] <= 'Z' then (s[i] as int + 32) as char else s[i])
  }

  /** `sub` occurs in `s` starting at `i`. */
  predicate OccursAt(s: string, sub: string, i: int)
  {
    0 <= i <= |s| - |sub| && s[i..i + |sub|] == sub
  }

  /** `sub` occurs in `s`. */
  predicate Contains(s: string, sub: string)
  {
    exists i :: 0 <= i <= |s| && OccursAt(s, sub, i)
  }

  /**
   * SQLite's `LIKE` with no ESCAPE clause: `%` matches any run of
   * characters, `_` any one character, and every other character itself.
   */
  predicate Like(pattern: string, s: string)
    decreases |pattern| + |s|
  {
    if pattern == [] then s == []
    else if pattern[0] == '%' then Like(pattern[1..], s) || (s != [] && Like(pattern, s[1..]))
    else s != [] && (pattern[0] == '_' || pattern[0] == s[0]) && Like(pattern[1..], s[1..])
  }

  /**
   * `Professor.name.ilike(f"%{name}%")`, which SQLAlchemy renders on SQLite
   * as `lower(name) LIKE lower(pattern)`: a `%` or `_` typed in the query
   * is a wildcard too.
   */
  predicate NameMatches(query: string, p: Professor)
  {
    Like(AsciiLower("%" + query + "%"), AsciiLower(p.name))
  }

  /** No wildcard in the text. */
  predicate Literal(q: string)
  {
    '%' !in q && '_' !in q
  }

  /** A trailing `%` matches whatever is left. */
  lemma {:induction false} LikeAnyRest(s: string)
    ensures Like("%", s)
    decreases |s|
  {
    if s != [] {
      LikeAnyRest(s[1..]);
    }
  }

  /** A literal head must be the text's prefix, character for character. */
  lemma {:induction false} LikeLiteralHead(q: string, rest: string, s: string)
    requires Literal(q)
    ensures Like(q + rest, s) <==> |q| <= |s| && s[..|q|] == q && Like(rest, s[|q|..])
    decreases |q|
  {
    if q != [] {
      assert (q + rest)[1..] == q[1..] + rest;
      assert q[0] in q && (q + rest)[0] == q[0];
      if s != [] {
        LikeLiteralHead(q[1..], rest, s[1..]);
        if |q| <= |s| {
          assert s[1..][..|q| - 1] == s[1..|q|];
          assert s[1..][|q| - 1..] == s[|q|..];
          assert s[..|q|] == q <==> s[0] == q[0] && s[1..|q|] == q[1..] by {
            if s[0] == q[0] && s[1..|q|] == q[1..] {
              assert forall k :: 0 < k < |q| ==> s[k] == s[1..|q|][k - 1];
            }
          }
        }
      }
    } else {
      assert q + rest == rest && s[0..] == s;
    }
  }

  /** A leading `%` lets the rest of the pattern start anywhere. */
  lemma {:induction false} LikeLeadingPercent(rest: string, s: string)
    ensures Like("%" + rest, s) <==> exists i :: 0 <= i <= |s| && Like(rest, s[i..])
    decreases |s|
  {
    var pattern := "%" + rest;
    assert pattern[1..] == rest;
    assert s[0..] == s;
    if s != [] {
      LikeLeadingPercent(rest, s[1..]);
      if exists i :: 0 <= i <= |s| && Like(rest, s[i..]) {
        var i :| 0 <= i <= |s| && Like(rest, s[i..]);
        if i > 0 {
          assert s[1..][i - 1..] == s[i..];
        }
      }
      if exists i :: 0 <= i <= |s[1..]| && Like(rest, s[1..][i..]) {
        var i :| 0 <= i <= |s[1..]| && Like(rest, s[1..][i..]);
        assert s[1..][i..] == s[i + 1..];
      }
    }
  }

  /**
   * A query without `%` or `_` matches exactly the names that contain it,
   * ignoring ASCII case: the substring search `ilike` is used for.
   */
  lemma NameMatchesLiteral(query: string, p: Professor)
    requires Literal(query)
    ensures NameMatches(query, p) <==> Contains(AsciiLower(p.name), AsciiLower(query))
  {
    var q, name := AsciiLower(query), AsciiLower(p.name);
    assert AsciiLower("%" + query + "%") == "%" + (q + "%");
    assert Literal(q) by {
      forall i | 0 <= i < |q| ensures q[i] != '%' && q[i] != '_' {
        assert query[i] in query;
      }
    }
    LikeLeadingPercent(q + "%", name);
    forall i | 0 <= i <= |name|
      ensures Like(q + "%", name[i..]) <==> OccursAt(name, q, i)
    {
      LikeLiteralHead(q, "%", name[i..]);
      if |q| <= |name| - i {
        LikeAnyRest(name[i..][|q|..]);
        assert name[i..][..|q|] == name[i..i + |q|];
      }
    }
  }

  /** The empty query matches every name, and a name without wildcards matches itself. */
  lemma NameMatchesBasics(p: Professor)
    ensures NameMatches("", p)
    ensures Literal(p.name) ==> NameMatches(p.name, p)
  {
    var name := AsciiLower(p.name);
    assert OccursAt(name, "", 0);
    assert OccursAt(name, name, 0);
    if Literal(p.name) {
      NameMatchesLiteral(p.name, p);
    }
    NameMatchesLiteral("", p);
  }

  /** `_` in the query is a wildcard: it matches any name that is not empty. */
  lemma UnderscoreMatchesAny(p: Professor)
    requires p.name != []
    ensures NameMatches("_", p)
  {
    var name := AsciiLower(p.name);
    var pattern := AsciiLower("%" + "_" + "%");
    assert |pattern| == 3 && pattern[0] == '%' && pattern[1] == '_' && pattern[2] == '%';
    assert pattern[1..][1..] == "%";
    LikeAnyRest(name[1..]);
    assert Like(pattern[1..], name);
  }

  /** SQL ascending order on a nullable integer: NULL first. */
  predicate NullsFirstLe(a: Option<int>, b: Option<int>)
  {
    a.None? || (b.Some? && a.value <= b.value)
  }

  /** `order_by(weekday, lesson_number)`. */
  predicate SlotLe(a: ProfessorLesson, b: ProfessorLesson)
  {
    (NullsFirstLe(a.weekday, b.weekday) && !NullsFirstLe(b.weekday, a.weekday))
    || (a.weekday == b.weekday && NullsFirstLe(a.lessonNumber, b.lessonNumber))
  }

  lemma SlotLeTotal()
    ensures TotalPreorder(SlotLe)
  {
  }

  predicate OfProfessor(professorId: Id, pl: ProfessorLesson)
  {
    pl.professorId == professorId
  }

  /** The two answers: no single match (with the matches), or the one professor with their lessons. */
  datatype ProfessorSchedule = Ambiguous(professors: seq<Professor>) | Found(professor: Professor, lessons: seq<ProfessorLesson>)

  function LessonsForProfessor(db: Db, query: string): ProfessorSchedule
  {
    var professors := Filter(db.professors, (p: Professor) => NameMatches(query, p));
    if |professors| != 1 then Ambiguous(professors)
    else
      var professor := professors[0];
      Found(professor, SortBy(Filter(db.professorLessons, (pl: ProfessorLesson) => OfProfessor(professor.id, pl)), SlotLe))
  }

  /**
   * No match or several: every matching professor, in table order, and no
   * lessons. Exactly one: that professor, whose name matches the `ilike`
   * pattern, with exactly their rows ordered by weekday and slot, NULL
   * first.
   */
  lemma LessonsForProfessorSound(db: Db, query: string)
    ensures LessonsForProfessor(db, query).Ambiguous? ==>
      var ps := LessonsForProfessor(db, query).professors;
      |ps| != 1 && forall p :: p in ps <==> p in db.professors && NameMatches(query, p)
    ensures LessonsForProfessor(db, query).Found? ==>
      var r := LessonsForProfessor(db, query);
      r.professor in db.professors && NameMatches(query, r.professor)
      && (forall p :: p in db.professors && NameMatches(query, p) ==> p == r.professor)
      && SortedBy(r.lessons, SlotLe)
      && multiset(r.lessons) == multiset(Filter(db.professorLessons, (pl: ProfessorLesson) => OfProfessor(r.professor.id, pl)))
  {
    var ps := Filter(db.professors, (p: Professor) => NameMatches(query, p));
    if |ps| == 1 {
      assert ps[0] in ps;
      forall p | p in db.professors && NameMatches(query, p) ensures p == ps[0] {
        assert p in ps;
      }
      SlotLeTotal();
      SortBySorted(Filter(db.professorLessons, (pl: ProfessorLesson) => OfProfessor(ps[0].id, pl)), SlotLe);
    }
  }
}
