# ABCU course listing, modelled in Dafny

The ABCU advising program reads a course catalog and stores it in an index.
The catalog is a text file: one course per line, with fields separated by commas. The fields are the course number, the course name, then any prerequisite course numbers.
The program can then list every course in order of number, or show one course with its prerequisites.

The index is an unbalanced binary search tree of linked nodes, keyed by course number. A new course goes to the left of a node whose number is strictly greater and to the right otherwise. A course whose number is already stored is therefore kept as well, to the right.

This project models the following:

- the tree, as the classes `CourseIndex.Node` and `CourseIndex.BinarySearchTree`. Their insertion changes links in place. Search is a loop down from the root. The in-order walk returns a sequence where the program prints.
- a value-level tree, `CourseTree.Tree`, that the nodes stand for. The search-tree invariant, the stored multiset and the behaviour of lookup are proved on it.
- the lexicographic order on course numbers (`Lex.Less`), proved to be a strict total order.
- the comma splitting of a line, as repeated `getline` on a string stream does it (`Split`).
- the loading loop: blank lines are skipped, each line becomes one course, and the load stops at the first line with fewer than two fields (`Loader`).
- the text shown for one course, with its prerequisite list joined by ", " (`Display`).

Modules: `Lex`, `Courses` (the `Course` record and the empty course that a failed search returns), `CourseTree`, `CourseIndex`, `Split`, `Display`, `Loader`.

Two behaviours that one might expect to be otherwise are modelled as the program has them:

- One might expect a badly formatted line to roll the whole load back. Instead it stops the load, and the courses of earlier lines remain inserted.
- One might expect a search that finds nothing to return an absent result. Instead it returns a course with empty number, name and prerequisite list. The value-level `CourseTree.Lookup` gives an `Option`. `Search` returns the course `Lookup` finds, and the empty course when `Lookup` gives `None`. The converse does not hold: a stored course equal to the empty course cannot be told apart from a miss. The loader produces such a course from the line ",," (`Loader.EmptyFieldsLine`).

## Model

| member | source | states |
|---|---|---|
| Lex.LessIrreflexive | ABCU_Course_Listing.cpp:141 | no course number is less than itself |
| Lex.LessTransitive | ABCU_Course_Listing.cpp:141 | the order on course numbers is transitive |
| Lex.LessTrichotomous | ABCU_Course_Listing.cpp:120 | any two course numbers are equal or one is less than the other |
| Lex.LessAsymmetric | ABCU_Course_Listing.cpp:120 | two course numbers are never each less than the other |
| Lex.LessOrEqualTransitive | ABCU_Course_Listing.cpp:152 | "not less than" is transitive, so right subtrees stay ordered |
| Lex.LessAtFirstDifference | ABCU_Course_Listing.cpp:141 | after a common prefix, the first differing character decides the order |
| CourseIndex.Node.constructor | ABCU_Course_Listing.cpp:36-45 | a new node holds the course and has no children |
| CourseIndex.Node.InOrder | ABCU_Course_Listing.cpp:168-175 | walking a node's subtree left, node, right gives the in-order sequence of the tree the subtree stands for |
| CourseIndex.BinarySearchTree.constructor | ABCU_Course_Listing.cpp:74-76 | a new index is empty and valid, and nothing has been inserted |
| CourseIndex.BinarySearchTree.Insert | ABCU_Course_Listing.cpp:96-105 | the index stays a valid search tree whose stored courses are exactly those inserted so far, this one last; exactly one fresh leaf holding the course is added and becomes the root of an empty index; an existing root stays; no existing node's course changes, and every link that changes was empty and now holds the new leaf |
| CourseIndex.BinarySearchTree.AddNode | ABCU_Course_Listing.cpp:139-162 | exactly one fresh leaf holding the course is added below the node; every link that changes was empty and now holds that leaf; the subtree is the old one with the course inserted |
| CourseIndex.BinarySearchTree.Search | ABCU_Course_Listing.cpp:110-131 | without changing the index, returns a course with the given number when one is stored, namely the earliest inserted one; otherwise returns the empty course |
| CourseIndex.BinarySearchTree.InOrder | ABCU_Course_Listing.cpp:88-91 | lists every inserted course exactly once, with course numbers in non-decreasing order |
| CourseTree.ElementKey | ABCU_Course_Listing.cpp:23-27 | the number of every stored course is a stored key |
| CourseTree.InsertElements | ABCU_Course_Listing.cpp:96-105 | insertion adds exactly the one course; nothing is replaced or dropped |
| CourseTree.InsertKeys | ABCU_Course_Listing.cpp:139-162 | the stored keys gain exactly the new course's number |
| CourseTree.InsertOrdered | ABCU_Course_Listing.cpp:139-162 | insertion keeps keys strictly less on the left and not less on the right |
| CourseTree.DuplicatesGoRight | ABCU_Course_Listing.cpp:141 | a node's own number never occurs in its left subtree |
| CourseTree.InsertDuplicateGoesRight | ABCU_Course_Listing.cpp:152-160 | inserting into a tree whose root has the course's number puts the course into the root's right subtree |
| CourseTree.ContainedKey | ABCU_Course_Listing.cpp:23-27 | the number of a node anywhere in a tree is a key of that tree |
| CourseTree.InsertEqualGoesRightOf | ABCU_Course_Listing.cpp:141-160 | in a search tree, a course whose number equals that of a node at any depth is inserted into that node's right subtree, the rest of the node unchanged |
| CourseTree.BuildTreeElements | ABCU_Course_Listing.cpp:96-105 | after any sequence of insertions, the tree stores exactly the inserted courses |
| CourseTree.BuildTreeOrdered | ABCU_Course_Listing.cpp:139-162 | after any sequence of insertions, the search-tree invariant holds |
| CourseTree.InOrder | ABCU_Course_Listing.cpp:168-175 | the traversal holds each stored course exactly as often as it is stored |
| CourseTree.InOrderKey | ABCU_Course_Listing.cpp:168-175 | every number in the traversal is a stored key |
| CourseTree.InOrderSorted | ABCU_Course_Listing.cpp:168-175 | in a search tree, the traversal lists course numbers in non-decreasing order |
| CourseTree.Lookup | ABCU_Course_Listing.cpp:110-131 | a found course has the searched number and is stored in the tree |
| CourseTree.LookupFindsKey | ABCU_Course_Listing.cpp:114-127 | in a search tree, the descent finds a course exactly when its number is stored |
| CourseTree.LookupInsert | ABCU_Course_Listing.cpp:116-117 | insertion never changes what an earlier search found; a missing number is found afterwards exactly when it is the new course's |
| CourseTree.EarliestAppend | ABCU_Course_Listing.cpp:116-117 | appending a course keeps the earliest course with a number, or makes the new course the earliest when none was there |
| CourseTree.LookupFindsEarliest | ABCU_Course_Listing.cpp:116-117 | after any sequence of insertions, search finds nothing exactly when no inserted course has the number, and otherwise the earliest inserted one |
| CourseTree.ScenarioShape | ABCU_Course_Listing.cpp:139-162 | inserting CS101, CS201 and CS050 in that order gives CS101 at the root with CS050 on its left and CS201 on its right |
| CourseTree.ThreeCourseScenario | ABCU_Course_Listing.cpp:110-131 | for those three courses the in-order listing is CS050, CS101, CS201; CS201 is found with its prerequisite; MATH999 is not found |
| Split.PiecesAvoidDelimiter | ABCU_Course_Listing.cpp:210 | no piece between delimiters contains the delimiter |
| Split.JoinPieces | ABCU_Course_Listing.cpp:210 | putting the delimiter back between the pieces gives the line again |
| Split.PiecesAppendPlain | ABCU_Course_Listing.cpp:210 | text without the delimiter only lengthens the last piece |
| Split.PrefixEachEmpty | ABCU_Course_Listing.cpp:205-215 | putting nothing in front of each string leaves them unchanged |
| Split.PiecesOfJoin | ABCU_Course_Listing.cpp:188 | splitting parts joined by the delimiter followed by a fixed text gives the first part, then each later part with that text in front of it |
| Split.SplitJoin | ABCU_Course_Listing.cpp:205-215 | splitting parts joined by the delimiter gives the parts back |
| Split.FieldsRoundTrip | ABCU_Course_Listing.cpp:205-215 | rejoining the fields with the delimiter gives the line, less one final delimiter when the line ends with one; an empty line gives no fields |
| Split.FieldsAvoidDelimiter | ABCU_Course_Listing.cpp:205-215 | no field contains the delimiter |
| Split.FieldsOfJoin | ABCU_Course_Listing.cpp:205-215 | fields joined by the delimiter split back into the same fields when none contains the delimiter and the last is not empty |
| Split.SplitString | ABCU_Course_Listing.cpp:205-215 | the character-by-character scan yields exactly the getline fields of the line, none containing the delimiter |
| Display.PrereqListSplits | ABCU_Course_Listing.cpp:185-193 | the listed prerequisites cut at commas give every prerequisite in order, each after the first preceded by the space of ", ", and nothing after the last |
| Display.DisplayCourse | ABCU_Course_Listing.cpp:180-196 | the text is the number-and-name line followed by the prerequisite line joined with ", "; it is the first line alone exactly when there are no prerequisites |
| Loader.NonEmptyContents | ABCU_Course_Listing.cpp:235-236 | skipping blank lines keeps every other line as often as it occurs, and no blank one |
| Loader.NonEmptyAppend | ABCU_Course_Listing.cpp:231-237 | skipping blank lines works piece by piece and keeps the order |
| Loader.NonEmptyKeepsAll | ABCU_Course_Listing.cpp:275-277 | when no field is blank, none is dropped |
| Loader.ParsedCourseClean | ABCU_Course_Listing.cpp:258-279 | a parsed course has no comma in any field and no empty prerequisite |
| Loader.ParseLineRoundTrip | ABCU_Course_Listing.cpp:258-279 | a course written as one comma-separated line is read back as the same course |
| Loader.EmptyFieldsLine | ABCU_Course_Listing.cpp:128-130 | the line ",," reads as a course equal to the empty course that a search returns when it finds nothing |
| Loader.AllocateStopsAtFirstBadLine | ABCU_Course_Listing.cpp:253-284 | the load inserts the course of each leading well-formed line, in order, and stops exactly at the first line with fewer than two fields; earlier courses stay inserted |
| Loader.AllocateStops | ABCU_Course_Listing.cpp:260-263 | once a line has stopped the load, the later lines change nothing |
| Loader.BuildCourse | ABCU_Course_Listing.cpp:266-279 | field 0 becomes the number, field 1 the name, and the non-blank later fields the prerequisites, in order |
| Loader.LoadCourses | ABCU_Course_Listing.cpp:230-286 | the courses inserted are those of the leading well-formed non-blank lines; the outcome is no data, incorrect format or stored accordingly |
| Loader.LoadLine | ABCU_Course_Listing.cpp:254-283 | one line inserts its course exactly when it has at least two fields, and inserts nothing otherwise |
| Loader.AllocateCourses | ABCU_Course_Listing.cpp:253-284 | the index gains exactly the courses the allocation loop inserts, and the loop completes exactly when no line stops it |

## Left out

- Opening and reading the file: `Loader.LoadCourses` receives the file's lines as a sequence of strings. The model's `NoData` outcome stands for "no non-blank line, nothing inserted". The program reports that case by printing "Unable to open", and for a file that opened but held no data it first prints "No data was found". A file that cannot be opened gives no lines, so it is the `NoData` case too. The messages are not modelled. Carriage returns and other characters are kept in the lines as they are.
- All console output is left out: the status messages of the loader, the menu, and the printing in the in-order walk and in the course display. The walk returns a sequence, and the display returns its text.
- The menu loop in `main`, reading the user's choices, and the `default` file-name token are left out. They are console interaction.
- The destructor is not modelled. Its body is empty and releases no node, so there is no teardown behaviour to state.
- Memory allocation failure is not modelled. Nor is any part of the string stream's behaviour beyond the field semantics above.
