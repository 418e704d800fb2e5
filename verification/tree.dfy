/**
 * The course index as a value: an unbalanced binary search tree keyed by
 * course number. This is the abstraction the linked nodes of CourseIndex
 * stand for, and where the properties of insertion, lookup and in-order
 * traversal are proved.
 */
module CourseTree {
  import opened Courses
  import opened Lex

  datatype Tree = Nil | Branch(left: Tree, course: Course, right: Tree)

  /** The course numbers stored in t. */
  function Keys(t: Tree): set<string>
  {
    match t
    case Nil => {}
    case Branch(l, c, r) => Keys(l) + {c.courseNumber} + Keys(r)
  }

  /** The courses stored in t, each as often as it is stored. */
  function Elements(t: Tree): multiset<Course>
  {
    match t
    case Nil => multiset{}
    case Branch(l, c, r) => Elements(l) + multiset{c} + Elements(r)
  }

  /**
   * The search-tree invariant: every key in a node's left subtree is strictly
   * less than the node's key, every key in its right subtree is not less.
   */
  ghost predicate Ordered(t: Tree)
  {
    match t
    case Nil => true
    case Branch(l, c, r) =>
      && Ordered(l)
      && Ordered(r)
      && (forall k :: k in Keys(l) ==> Less(k, c.courseNumber))
      && (forall k :: k in Keys(r) ==> !Less(k, c.courseNumber))
  }

  lemma {:induction false} ElementKey(t: Tree, c: Course)
    requires c in Elements(t)
    ensures c.courseNumber in Keys(t)
  {
    match t
    case Branch(l, n, r) =>
      if c in Elements(l) {
        ElementKey(l, c);
      } else if c in Elements(r) {
        ElementKey(r, c);
      }
  }

  /**
   * Insertion descends left where the node's key is strictly greater than the
   * new key and right otherwise, and hangs a new leaf at the first empty link.
   * The new course is added; nothing is replaced, so equal keys are all kept.
   */
  function Insert(t: Tree, c: Course): (r: Tree)
    ensures r != Nil
  {
    match t
    case Nil => Branch(Nil, c, Nil)
    case Branch(l, n, rt) =>
      if Less(c.courseNumber, n.courseNumber) then Branch(Insert(l, c), n, rt)
      else Branch(l, n, Insert(rt, c))
  }

  /** Insertion adds exactly the one course: nothing is replaced or dropped. */
  lemma {:induction false} InsertElements(t: Tree, c: Course)
    ensures Elements(Insert(t, c)) == Elements(t) + multiset{c}
  {
    match t
    case Nil =>
    case Branch(l, n, r) =>
      if Less(c.courseNumber, n.courseNumber) {
        InsertElements(l, c);
      } else {
        InsertElements(r, c);
      }
  }

  lemma {:induction false} InsertKeys(t: Tree, c: Course)
    ensures Keys(Insert(t, c)) == Keys(t) + {c.courseNumber}
  {
    match t
    case Nil =>
    case Branch(l, n, r) =>
      if Less(c.courseNumber, n.courseNumber) {
        InsertKeys(l, c);
      } else {
        InsertKeys(r, c);
      }
  }

  lemma {:induction false} InsertOrdered(t: Tree, c: Course)
    requires Ordered(t)
    ensures Ordered(Insert(t, c))
  {
    match t
    case Nil =>
    case Branch(l, n, r) =>
      if Less(c.courseNumber, n.courseNumber) {
        InsertKeys(l, c);
        InsertOrdered(l, c);
      } else {
        InsertKeys(r, c);
        InsertOrdered(r, c);
      }
  }

  /** A key equal to a node's key is never in that node's left subtree. */
  lemma DuplicatesGoRight(l: Tree, n: Course, r: Tree)
    requires Ordered(Branch(l, n, r))
    ensures n.courseNumber !in Keys(l)
  {
    LessIrreflexive(n.courseNumber);
  }

  /** A course whose number equals a node's number is inserted into that node's right subtree. */
  lemma InsertDuplicateGoesRight(l: Tree, n: Course, r: Tree, c: Course)
    requires c.courseNumber == n.courseNumber
    ensures Insert(Branch(l, n, r), c) == Branch(l, n, Insert(r, c))
  {
    LessIrreflexive(n.courseNumber);
  }

  /** s is t or a subtree of t, at any depth. */
  predicate Contains(t: Tree, s: Tree)
  {
    t == s || (t.Branch? && (Contains(t.left, s) || Contains(t.right, s)))
  }

  /** The course number of a node anywhere in t is a key of t. */
  lemma {:induction false} ContainedKey(t: Tree, l: Tree, n: Course, r: Tree)
    requires Contains(t, Branch(l, n, r))
    ensures n.courseNumber in Keys(t)
  {
    if t != Branch(l, n, r) {
      if Contains(t.left, Branch(l, n, r)) {
        ContainedKey(t.left, l, n, r);
      } else {
        ContainedKey(t.right, l, n, r);
      }
    }
  }

  /**
   * Wherever a node sits in a search tree, a course with that node's number
   * is inserted into that node's right subtree: the descent reaches the
   * node, since at every ancestor the new number goes the same way as the
   * node's own, and there it turns right.
   */
  lemma {:induction false} InsertEqualGoesRightOf(t: Tree, l: Tree, n: Course, r: Tree, c: Course)
    requires Ordered(t) && Contains(t, Branch(l, n, r))
    requires c.courseNumber == n.courseNumber
    ensures Contains(Insert(t, c), Branch(l, n, Insert(r, c)))
  {
    if t == Branch(l, n, r) {
      InsertDuplicateGoesRight(l, n, r, c);
    } else if Contains(t.left, Branch(l, n, r)) {
      ContainedKey(t.left, l, n, r);
      assert Insert(t, c) == Branch(Insert(t.left, c), t.course, t.right);
      InsertEqualGoesRightOf(t.left, l, n, r, c);
    } else {
      ContainedKey(t.right, l, n, r);
      assert Insert(t, c) == Branch(t.left, t.course, Insert(t.right, c));
      InsertEqualGoesRightOf(t.right, l, n, r, c);
    }
  }

  /** The tree built by inserting the courses of cs, first to last, into an empty tree. */
  function BuildTree(cs: seq<Course>): Tree
    decreases |cs|
  {
    if cs == [] then Nil else Insert(BuildTree(cs[..|cs| - 1]), cs[|cs| - 1])
  }

  /** Building from any sequence of insertions stores exactly the inserted courses. */
  lemma {:induction false} BuildTreeElements(cs: seq<Course>)
    ensures Elements(BuildTree(cs)) == multiset(cs)
    decreases |cs|
  {
    if cs != [] {
      var init, last := cs[..|cs| - 1], cs[|cs| - 1];
      assert cs == init + [last];
      BuildTreeElements(init);
      InsertElements(BuildTree(init), last);
    }
  }

  /** After any sequence of insertions the search-tree invariant holds. */
  lemma {:induction false} BuildTreeOrdered(cs: seq<Course>)
    ensures Ordered(BuildTree(cs))
    decreases |cs|
  {
    if cs != [] {
      BuildTreeOrdered(cs[..|cs| - 1]);
      InsertOrdered(BuildTree(cs[..|cs| - 1]), cs[|cs| - 1]);
    }
  }

  lemma BuildTreeAppend(cs: seq<Course>, c: Course)
    ensures BuildTree(cs + [c]) == Insert(BuildTree(cs), c)
  {
  }

  /** Left subtree, node, right subtree. */
  function InOrder(t: Tree): (s: seq<Course>)
    ensures multiset(s) == Elements(t)
  {
    match t
    case Nil => []
    case Branch(l, c, r) => InOrder(l) + [c] + InOrder(r)
  }

  /** Keys never decrease along s. */
  ghost predicate SortedByKey(s: seq<Course>)
  {
    forall i, j :: 0 <= i < j < |s| ==> !Less(s[j].courseNumber, s[i].courseNumber)
  }

  lemma InOrderKey(t: Tree, i: int)
    requires 0 <= i < |InOrder(t)|
    ensures InOrder(t)[i].courseNumber in Keys(t)
  {
    assert InOrder(t)[i] in multiset(InOrder(t));
    ElementKey(t, InOrder(t)[i]);
  }

  lemma {:induction false} InOrderSorted(t: Tree)
    requires Ordered(t)
    ensures SortedByKey(InOrder(t))
  {
    match t
    case Nil =>
    case Branch(l, n, r) =>
      InOrderSorted(l);
      InOrderSorted(r);
      var a, b := InOrder(l), InOrder(r);
      var s := a + [n] + b;
      var key := n.courseNumber;
      forall i, j | 0 <= i < j < |s|
        ensures !Less(s[j].courseNumber, s[i].courseNumber)
      {
        if i < |a| {
          InOrderKey(l, i);
          assert Less(s[i].courseNumber, key);
          if j == |a| {
            LessAsymmetric(s[i].courseNumber, key);
          } else if j > |a| {
            InOrderKey(r, j - |a| - 1);
            assert s[j] == b[j - |a| - 1];
            if Less(s[j].courseNumber, s[i].courseNumber) {
              LessTransitive(s[j].courseNumber, s[i].courseNumber, key);
            }
          }
        } else if i == |a| {
          InOrderKey(r, j - |a| - 1);
          assert s[j] == b[j - |a| - 1];
        } else {
          assert s[i] == b[i - |a| - 1] && s[j] == b[j - |a| - 1];
        }
      }
  }

  /**
   * Descend from the root: a node whose key equals k is the answer; otherwise
   * go left when k is less than the node's key and right when it is not.
   */
  function Lookup(t: Tree, k: string): (r: Option<Course>)
    ensures r.Some? ==> r.value.courseNumber == k && r.value in Elements(t)
  {
    match t
    case Nil => None
    case Branch(l, n, rt) =>
      if n.courseNumber == k then Some(n)
      else if Less(k, n.courseNumber) then Lookup(l, k)
      else Lookup(rt, k)
  }

  /** In an ordered tree, lookup succeeds exactly for the stored keys. */
  lemma {:induction false} LookupFindsKey(t: Tree, k: string)
    requires Ordered(t)
    ensures Lookup(t, k).Some? <==> k in Keys(t)
  {
    match t
    case Nil =>
    case Branch(l, n, r) =>
      if Lookup(t, k).Some? {
        ElementKey(t, Lookup(t, k).value);
      } else if n.courseNumber != k {
        if Less(k, n.courseNumber) {
          LookupFindsKey(l, k);
        } else {
          LookupFindsKey(r, k);
        }
      }
  }

  /**
   * Inserting c does not change what an earlier lookup found: the path to a
   * match is made of old nodes. A key that was missing is found afterwards
   * exactly when it is c's key, because insertion then follows the same path
   * as the lookup and hangs c where the lookup ran out.
   */
  lemma {:induction false} LookupInsert(t: Tree, c: Course, k: string)
    ensures Lookup(Insert(t, c), k) ==
      if Lookup(t, k).Some? then Lookup(t, k)
      else if c.courseNumber == k then Some(c)
      else None
  {
    match t
    case Nil =>
    case Branch(l, n, r) =>
      if n.courseNumber != k {
        if Less(c.courseNumber, n.courseNumber) {
          LookupInsert(l, c, k);
        } else {
          LookupInsert(r, c, k);
        }
      }
  }

  /** cs[i] is the first course of cs whose number is k. */
  ghost predicate IsEarliest(cs: seq<Course>, i: int, k: string)
  {
    0 <= i < |cs| && cs[i].courseNumber == k && forall j :: 0 <= j < i ==> cs[j].courseNumber != k
  }

  /**
   * r is what "the earliest course of cs numbered k" should be: nothing when
   * no course of cs has that number, otherwise the first one that has it.
   */
  ghost predicate FindsEarliest(cs: seq<Course>, k: string, r: Option<Course>)
  {
    && (r.None? <==> forall i :: 0 <= i < |cs| ==> cs[i].courseNumber != k)
    && (r.Some? ==> exists i :: IsEarliest(cs, i, k) && cs[i] == r.value)
  }

  lemma EarliestAppend(cs: seq<Course>, c: Course, k: string, r: Option<Course>)
    requires FindsEarliest(cs, k, r)
    ensures FindsEarliest(cs + [c], k, if r.Some? then r else if c.courseNumber == k then Some(c) else None)
  {
    var cs' := cs + [c];
    if r.Some? {
      var i :| IsEarliest(cs, i, k) && cs[i] == r.value;
      assert IsEarliest(cs', i, k);
    } else if c.courseNumber == k {
      assert IsEarliest(cs', |cs|, k);
    } else {
      assert forall i :: 0 <= i < |cs'| ==> cs'[i].courseNumber != k by {
        forall i | 0 <= i < |cs'| ensures cs'[i].courseNumber != k {
          if i < |cs| { assert cs'[i] == cs[i]; }
        }
      }
    }
  }

  /**
   * After any sequence of insertions, lookup finds nothing exactly when no
   * inserted course has the key, and otherwise the earliest inserted one.
   */
  lemma {:induction false} LookupFindsEarliest(cs: seq<Course>, k: string)
    ensures FindsEarliest(cs, k, Lookup(BuildTree(cs), k))
    decreases |cs|
  {
    if cs != [] {
      var init, c := cs[..|cs| - 1], cs[|cs| - 1];
      assert cs == init + [c];
      assert BuildTree(cs) == Insert(BuildTree(init), c);
      LookupFindsEarliest(init, k);
      LookupInsert(BuildTree(init), c, k);
      EarliestAppend(init, c, k, Lookup(BuildTree(init), k));
    }
  }

  const intro := Course("CS101", "Intro to CS", [])
  const dataStructures := Course("CS201", "Data Structures", ["CS101"])
  const preCS := Course("CS050", "Pre-CS", [])

  /** The shape of the tree after inserting intro, dataStructures and preCS in that order. */
  lemma ScenarioShape()
    ensures BuildTree([intro, dataStructures, preCS])
      == Branch(Branch(Nil, preCS, Nil), intro, Branch(Nil, dataStructures, Nil))
  {
    assert !Less("CS201", "CS101") by {
      LessAtFirstDifference("CS101", "CS201", 2);
      LessAsymmetric("CS101", "CS201");
    }
    assert Less("CS050", "CS101") by {
      LessAtFirstDifference("CS050", "CS101", 2);
    }
    var cs := [intro, dataStructures, preCS];
    assert cs[..2] == [intro, dataStructures] && cs[..2][..1] == [intro] && [intro][..0] == [];
    assert BuildTree([intro]) == Branch(Nil, intro, Nil);
    assert BuildTree(cs[..2]) == Branch(Nil, intro, Branch(Nil, dataStructures, Nil));
  }

  /**
   * Three courses inserted out of order are listed in order of number; the
   * second one is found with its prerequisite, and an unknown number is not.
   */
  lemma ThreeCourseScenario()
    ensures var t := BuildTree([intro, dataStructures, preCS]);
      && InOrder(t) == [preCS, intro, dataStructures]
      && Lookup(t, "CS201") == Some(dataStructures)
      && Lookup(t, "MATH999") == None
  {
    var t := Branch(Branch(Nil, preCS, Nil), intro, Branch(Nil, dataStructures, Nil));
    ScenarioShape();
    assert InOrder(t) == [preCS, intro, dataStructures];
    assert Lookup(t, "CS201") == Some(dataStructures) by {
      LessAtFirstDifference("CS101", "CS201", 2);
      LessAsymmetric("CS101", "CS201");
    }
    assert Lookup(t, "MATH999") == None by {
      LessAtFirstDifference("CS101", "MATH999", 0);
      LessAsymmetric("CS101", "MATH999");
      LessAtFirstDifference("CS201", "MATH999", 0);
      LessAsymmetric("CS201", "MATH999");
    }
  }
}
