/**
 * The course index as the program keeps it: linked nodes that insertion
 * changes in place. Each node carries, as ghost state, the tree value it
 * stands for and the set of nodes it owns; the index additionally remembers
 * every course inserted so far, in order.
 */
module CourseIndex {
  import opened Courses
  import opened Lex
  import opened CourseTree

  class Node {
    var course: Course
    var left: Node?
    var right: Node?

    ghost var tree: Tree
    ghost var Repr: set<object>

    /**
     * This node owns itself and its two subtrees; the subtrees own disjoint
     * sets of nodes, neither contains this node, and tree is the value of
     * the whole subtree rooted here.
     */
    ghost predicate Valid()
      reads this, Repr
      decreases Repr
    {
      && this in Repr
      && (left != null ==>
            left in Repr && left.Repr <= Repr && this !in left.Repr && left.Valid())
      && (right != null ==>
            right in Repr && right.Repr <= Repr && this !in right.Repr && right.Valid())
      && (left != null && right != null ==> left.Repr !! right.Repr)
      && tree == Branch(SubTree(left), course, SubTree(right))
    }

    constructor (aCourse: Course)
      ensures Valid() && fresh(Repr) && Repr == {this}
      ensures course == aCourse && left == null && right == null
      ensures tree == Branch(Nil, aCourse, Nil)
    {
      course := aCourse;
      left := null;
      right := null;
      tree := Branch(Nil, aCourse, Nil);
      Repr := {this};
    }

    /** The courses of this subtree: left subtree, this node, right subtree. */
    function InOrder(): (s: seq<Course>)
      reads this, Repr
      requires Valid()
      ensures s == CourseTree.InOrder(tree)
      decreases Repr
    {
      (if left == null then [] else left.InOrder())
      + [course]
      + (if right == null then [] else right.InOrder())
    }
  }

  /** The tree value of a possibly empty subtree. */
  ghost function SubTree(n: Node?): Tree
    reads n
  {
    if n == null then Nil else n.tree
  }

  class BinarySearchTree {
    var root: Node?

    ghost var tree: Tree
    ghost var history: seq<Course>
    ghost var Repr: set<object>

    /**
     * The nodes form one tree owned by this index, its value is the tree
     * built by inserting history in order, and so it is a search tree.
     */
    ghost predicate Valid()
      reads this, Repr
    {
      && this in Repr
      && (root == null ==> tree == Nil)
      && (root != null ==>
            root in Repr && root.Repr <= Repr && this !in root.Repr && root.Valid() && tree == root.tree)
      && tree == BuildTree(history)
      && Ordered(tree)
    }

    constructor ()
      ensures Valid() && fresh(Repr)
      ensures history == [] && tree == Nil
    {
      root := null;
      tree := Nil;
      history := [];
      Repr := {this};
    }

    /**
     * Adds course as the root of an empty index and below the root otherwise.
     * The stored courses grow by exactly this one, held by one fresh leaf.
     * The root stays when there was one; no node's course changes, and every
     * link that changes was empty and now holds the new leaf.
     */
    method Insert(course: Course) returns (ghost added: Node)
      requires Valid()
      modifies Repr
      ensures Valid() && fresh(Repr - old(Repr))
      ensures history == old(history) + [course]
      ensures tree == CourseTree.Insert(old(tree), course)
      ensures Elements(tree) == multiset(history)
      ensures fresh(added) && added.course == course && added.left == null && added.right == null
      ensures Repr == old(Repr) + {added}
      ensures old(root) == null ==> root == added
      ensures old(root) != null ==> root == old(root)
      ensures forall n: Node :: n in old(Repr) ==>
        && n.course == old(n.course)
        && (n.left == old(n.left) || (old(n.left) == null && n.left == added))
        && (n.right == old(n.right) || (old(n.right) == null && n.right == added))
    {
      tree, history := CourseTree.Insert(tree, course), history + [course];
      if root == null {
        root := new Node(course);
        added := root;
      } else {
        added := AddNode(root, course);
      }
      Repr := Repr + {added};
      assert Valid() by {
        BuildTreeAppend(old(history), course);
        InsertOrdered(old(tree), course);
      }
      assert Elements(tree) == multiset(history) by {
        BuildTreeElements(history);
      }
    }

    /**
     * Hangs a new leaf holding course below node: to the left where node's
     * key is strictly greater than course's key, to the right otherwise,
     * descending until the link in that direction is empty.
     * Every link that changes was empty and now holds the new leaf.
     */
    method AddNode(node: Node, course: Course) returns (ghost added: Node)
      requires node.Valid()
      modifies node.Repr
      ensures node.Valid()
      ensures fresh(added) && added.course == course && added.left == null && added.right == null
      ensures node.Repr == old(node.Repr) + {added}
      ensures node.tree == CourseTree.Insert(old(node.tree), course)
      ensures forall n: Node :: n in old(node.Repr) ==>
        && n.course == old(n.course)
        && (n.left == old(n.left) || (old(n.left) == null && n.left == added))
        && (n.right == old(n.right) || (old(n.right) == null && n.right == added))
      decreases node.Repr
    {
      if Less(course.courseNumber, node.course.courseNumber) {
        if node.left == null {
          var leaf := new Node(course);
          node.left := leaf;
          added := leaf;
        } else {
          added := AddNode(node.left, course);
        }
      } else {
        if node.right == null {
          var leaf := new Node(course);
          node.right := leaf;
          added := leaf;
        } else {
          added := AddNode(node.right, course);
        }
      }
      node.Repr := node.Repr + {added};
      node.tree := Branch(SubTree(node.left), node.course, SubTree(node.right));
    }

    /**
     * Walks down from the root and returns the first course whose number is
     * courseNumber; when the walk runs out, the empty course. That is the
     * earliest inserted course with this number, if there is one.
     */
    method Search(courseNumber: string) returns (course: Course)
      requires Valid()
      ensures match Lookup(tree, courseNumber)
              case Some(c) => course == c
              case None => course == EmptyCourse
      ensures courseNumber in Keys(tree) ==> course.courseNumber == courseNumber && course in Elements(tree)
      ensures courseNumber !in Keys(tree) ==> course == EmptyCourse
      ensures (forall i :: 0 <= i < |history| ==> history[i].courseNumber != courseNumber) ==> course == EmptyCourse
      ensures (exists i :: 0 <= i < |history| && history[i].courseNumber == courseNumber) ==>
        exists i :: IsEarliest(history, i, courseNumber) && history[i] == course
    {
      LookupFindsKey(tree, courseNumber);
      LookupFindsEarliest(history, courseNumber);
      var currNode := root;
      while currNode != null
        invariant currNode != null ==> currNode.Valid()
        invariant Lookup(SubTree(currNode), courseNumber) == Lookup(tree, courseNumber)
        decreases if currNode == null then {} else currNode.Repr
      {
        if currNode.course.courseNumber == courseNumber {
          return currNode.course;
        }
        if Less(courseNumber, currNode.course.courseNumber) {
          currNode := currNode.left;
        } else {
          currNode := currNode.right;
        }
      }
      return EmptyCourse;
    }

    /** Every stored course once, in non-decreasing order of course number. */
    function InOrder(): (s: seq<Course>)
      reads this, Repr
      requires Valid()
      ensures s == CourseTree.InOrder(tree)
      ensures multiset(s) == multiset(history)
      ensures SortedByKey(s)
    {
      InOrderSorted(tree);
      BuildTreeElements(history);
      if root == null then [] else root.InOrder()
    }
  }
}
