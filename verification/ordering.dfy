/** Question presentation order: `Meta.ordering = ['order', 'id']`, i.e.
    ascending by `order` with ties broken by primary key. */
module Ordering {
  import opened Seqs
  import opened Models

  /** `p` comes strictly before `q` in (order, id) order. */
  predicate KeyLess(p: Question, q: Question)
  {
    p.order < q.order || (p.order == q.order && p.id < q.id)
  }

  /** Every earlier question comes strictly before every later one. */
  predicate StrictlySorted(s: seq<Question>)
  {
    forall i, j :: 0 <= i < j < |s| ==> KeyLess(s[i], s[j])
  }

  /** Inserts `x` into a strictly sorted sequence none of whose ids is
      `x.id`. */
  function Insert(x: Question, s: seq<Question>): (r: seq<Question>)
    requires StrictlySorted(s)
    requires forall y :: y in s ==> y.id != x.id
    ensures StrictlySorted(r)
    ensures multiset(r) == multiset(s) + multiset{x}
    ensures forall y :: y in r <==> y == x || y in s
  {
    if s == [] || KeyLess(x, s[0]) then
      [x] + s
    else
      assert s == [s[0]] + s[1..];
      var rest := Insert(x, s[1..]);
      assert forall k :: 0 <= k < |rest| ==> KeyLess(s[0], rest[k]) by {
        forall k | 0 <= k < |rest| ensures KeyLess(s[0], rest[k]) {
          assert rest[k] in rest;
          if rest[k] != x {
            var m :| 0 <= m < |s[1..]| && s[1..][m] == rest[k];
            assert s[m + 1] == rest[k];
          }
        }
      }
      [s[0]] + rest
  }

  /** Insertion sort by (order, id). */
  function SortByKey(s: seq<Question>): (r: seq<Question>)
    requires UniqueQuestionIds(s)
    ensures StrictlySorted(r)
    ensures multiset(r) == multiset(s)
    ensures forall y :: y in r <==> y in s
  {
    if s == [] then []
    else
      assert s == [s[0]] + s[1..];
      assert forall y :: y in s[1..] ==> y.id != s[0].id by {
        forall y | y in s[1..] ensures y.id != s[0].id {
          var k :| 0 <= k < |s[1..]| && s[1..][k] == y;
          assert s[k + 1] == y;
        }
      }
      Insert(s[0], SortByKey(s[1..]))
  }

  /** Membership of a question in a quiz. */
  function OfQuiz(quiz: nat): Question -> bool
  {
    (q: Question) => q.quiz == quiz
  }

  /** `Question.objects.filter(quiz=quiz)` in table order. */
  function QuizQuestions(qs: seq<Question>, quiz: nat): seq<Question>
  {
    Filter(qs, OfQuiz(quiz))
  }

  /** Filtering a table with primary keys keeps the keys unique. */
  lemma {:induction false} FilterKeepsUniqueIds(qs: seq<Question>, p: Question -> bool)
    requires UniqueQuestionIds(qs)
    ensures UniqueQuestionIds(Filter(qs, p))
  {
    if qs != [] {
      FilterKeepsUniqueIds(qs[1..], p);
      var rest := Filter(qs[1..], p);
      forall y | y in rest ensures y.id != qs[0].id {
        FilterMembership(qs[1..], p, y);
        var k :| 0 <= k < |qs[1..]| && qs[1..][k] == y;
        assert qs[k + 1] == y;
      }
    }
  }

  /** The questions of a quiz as `take_quiz` and `submit_quiz` see them:
      the quiz's questions, each once, in (order, id) order. */
  function PresentedQuestions(qs: seq<Question>, quiz: nat): (r: seq<Question>)
    requires UniqueQuestionIds(qs)
    ensures StrictlySorted(r)
    ensures UniqueQuestionIds(r)
    ensures forall q :: q in r <==> q in qs && q.quiz == quiz
    ensures multiset(r) == multiset(QuizQuestions(qs, quiz))
  {
    FilterKeepsUniqueIds(qs, OfQuiz(quiz));
    var r := SortByKey(QuizQuestions(qs, quiz));
    assert forall q :: q in r <==> q in qs && q.quiz == quiz by {
      forall q ensures q in r <==> q in qs && q.quiz == quiz {
        FilterMembership(qs, OfQuiz(quiz), q);
      }
    }
    assert UniqueQuestionIds(r) by {
      forall i, j | 0 <= i < j < |r| ensures r[i].id != r[j].id {
        assert r[i] in qs && r[j] in qs;
        var a :| 0 <= a < |qs| && qs[a] == r[i];
        var b :| 0 <= b < |qs| && qs[b] == r[j];
        assert KeyLess(r[i], r[j]);
      }
    }
    r
  }

  /** The presentation order is determined by the set of questions alone:
      two strictly sorted sequences holding the same questions are equal. */
  lemma {:induction false} SortedUnique(a: seq<Question>, b: seq<Question>)
    requires StrictlySorted(a) && StrictlySorted(b)
    requires forall q :: q in a <==> q in b
    ensures a == b
    decreases |a|
  {
    if a != [] {
      assert a[0] in b;
    }
    if b != [] {
      assert b[0] in a;
    }
    if a != [] && b != [] {
      assert a[0] == b[0];
      forall q ensures q in a[1..] <==> q in b[1..] {
        if q in a[1..] {
          var k :| 0 <= k < |a[1..]| && a[1..][k] == q;
          assert KeyLess(a[0], a[k + 1]);
          assert q in b && q != b[0];
          var m :| 0 <= m < |b| && b[m] == q;
          assert q == b[1..][m - 1];
        }
        if q in b[1..] {
          var k :| 0 <= k < |b[1..]| && b[1..][k] == q;
          assert KeyLess(b[0], b[k + 1]);
          assert q in a && q != a[0];
          var m :| 0 <= m < |a| && a[m] == q;
          assert q == a[1..][m - 1];
        }
      }
      SortedUnique(a[1..], b[1..]);
      assert a == [a[0]] + a[1..] && b == [b[0]] + b[1..];
    }
  }

  /** The order in which a quiz's questions are presented does not depend on
      the order of rows in the question table. */
  lemma PresentationIgnoresTableOrder(qs1: seq<Question>, qs2: seq<Question>, quiz: nat)
    requires UniqueQuestionIds(qs1) && UniqueQuestionIds(qs2)
    requires forall q :: q in qs1 <==> q in qs2
    ensures PresentedQuestions(qs1, quiz) == PresentedQuestions(qs2, quiz)
  {
    SortedUnique(PresentedQuestions(qs1, quiz), PresentedQuestions(qs2, quiz));
  }
}
