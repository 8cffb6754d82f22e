# diversimax, modelled in Dafny

diversimax selects a citizens' panel from a pool of candidates. Each
candidate has one value per dimension (gender, age band, education, ...), and
a catalog gives every category of every dimension a minimum and a maximum
number of panel members. The selection is a mixed-integer linear program. It
has one binary variable per person. Persons who already answered "yes" or
"no" keep their answer. The category ranges and the panel size are
constraints. The objective sums, over every retained combination of
dimensions (one whose table has at most 100 intersections), how far each
intersection's size lies from an even spread of the panel over that
combination's intersections.

This project models the part that builds that program, and the check run on
the input data beforehand:

- `catalog.dfy` (module `Catalog`): the dimension catalog as two classes.
  `Dimension` maps category names to ranges. `Dimensions` maps dimension
  names to dimensions. Both keep the insertion order of their keys and are
  changed in place.
- `frame.dfy` (module `Frame`): the pool table, with an index value per row
  and possibly empty cells. `seqs.dfy` (module `Seqs`) holds the
  first-seen de-duplication of a column (`unique()`).
- `combinations.dfy`, `products.dfy`, `labels.dfy`, `intersections.dfy`:
  - every non-empty combination of the pool columns, by size and in column
    order;
  - the Cartesian product of the observed values of each column;
  - the `"__"`-joined intersection labels;
  - the enumeration loop over all combinations.
- `encoding.dfy` (module `Encoding`): the one-hot matrix of each
  combination, and the loop that keeps the tables with at most 100 labels.
- `linear_model.dfy` (module `LinearModel`): a linear program as data
  (variables, constraints, objective), the class the construction adds
  variables and constraints to, and what it means for an assignment to
  satisfy the program.
- `formulation.dfy` (module `Formulation`): the optimizer's construction and
  the model `optimize` builds. The construction is a method that changes a
  model object step by step, proved equal to `BuildModel`, a function of the
  optimizer, the catalog and the panel size.
- `feasibility.dfy` (module `Feasibility`): what the built model means.
  - An assignment satisfies it exactly when it picks a panel of the right
    size, keeps the forced answers and the category ranges, and every
    deviation variable is at least |intersection size − ideal size|.
  - For a fixed panel, the least objective is the sum of those distances.
  - The first values decode to the selected persons.
- `validation.dfy` (module `Validation`): the data check `verify_data`, as a
  function that either passes or names the first failing check.

Cells of the pool are strings; an empty cell (a missing value in the table)
is `None`. The ideal size of an intersection, panel size divided by the
number of intersections, is an exact `real` quotient.

## Model

| member | source | states |
|---|---|---|
| Catalog.Dimension.constructor | diversimax/models.py:10-13 | a new dimension carries the given name and holds no category |
| Catalog.Dimension.AddItem | diversimax/models.py:15-16 | the item is stored under its own name and replaces an earlier item of that name; every other entry is unchanged; a new name is appended to the key order, a known one keeps its place |
| Catalog.Dimension.GetRanges | diversimax/models.py:18-19 | the stored items exactly, one per distinct name, in first-insertion order of the names |
| Catalog.Dimensions.constructor | diversimax/models.py:21-23 | a new catalog has no dimension |
| Catalog.Dimensions.AddCategoryRange | diversimax/models.py:25-28 | an unknown name creates a fresh dimension of that name whose only item is the given one, and appends the name; a known name keeps the names and adds the item to its dimension; every other dimension and its items are unchanged |
| Catalog.Dimensions.GetDimension | diversimax/models.py:30-31 | the stored dimension (named after the key) for a known name, `None` otherwise |
| Catalog.Dimensions.DimensionNames | diversimax/models.py:33-35 | every dimension name exactly once, in order of first addition |
| Catalog.Dimensions.View | diversimax/algorithm.py:124-126 | the dimensions in name order, each with the ranges of its dimension in key order (what `GetRanges` lists) |
| Seqs.Unique | diversimax/algorithm.py:46 | the distinct values of a column: each value once, every value of the column, nothing else |
| Seqs.UniqueFirstSeenOrder | diversimax/algorithm.py:46 | the distinct values come in order of their first occurrence |
| Combinations.CombinationsShape | diversimax/algorithm.py:65 | every r-combination has r elements and keeps the column order |
| Combinations.CombinationsDistinct | diversimax/algorithm.py:65 | over distinct columns, no r-combination is listed twice |
| Combinations.Combinations | diversimax/algorithm.py:64-66 | asking for more columns than there are yields no combination; `CombinationsShape` and `CombinationsDistinct` give the rest |
| Combinations.AllDimsCombs | diversimax/algorithm.py:64-68 | `all_dims_combs` has exactly 2^D − 1 combinations for D columns; `AllDimsCombsShape` and `AllDimsCombsDistinct` give their order and distinctness |
| Combinations.AllDimsCombsShape | diversimax/algorithm.py:64-68 | every combination is non-empty and keeps the column order, and combinations come by non-decreasing size |
| Combinations.AllDimsCombsDistinct | diversimax/algorithm.py:64-68 | over distinct columns, no combination repeats, and none repeats a column |
| Products.Product | diversimax/algorithm.py:46 | the product has as many tuples as the product of the list lengths; `ProductShape`, `ProductComplete` and `ProductDistinct` give its contents |
| Products.ProductWithAt | diversimax/algorithm.py:46 | tuple `a * m + b` is the a-th first value followed by the b-th tuple of the rest (lexicographic order) |
| Products.ProductShape | diversimax/algorithm.py:46 | every tuple takes its k-th value from the k-th list |
| Products.ProductComplete | diversimax/algorithm.py:46 | every such tuple occurs in the product |
| Products.ProductDistinct | diversimax/algorithm.py:46 | over lists without repetitions, no tuple repeats |
| Labels.IntersectionName | diversimax/algorithm.py:35-37 | a label begins with the first value and is at least as long as each value; `IntersectionNameInjective` gives when labels identify their values |
| Labels.IntersectionNameInjective | diversimax/algorithm.py:35-37 | over clean values, equal labels of equally long value lists come from equal lists |
| Labels.NoSeparatorIsNotEnough | diversimax/algorithm.py:35-37 | values free of "__" can still share a label: ("a_", "b") and ("a", "_b") both give "a___b" |
| Intersections.PrepareDimensionsData | diversimax/algorithm.py:39-54 | fails exactly when a column of the combination is missing or has an empty cell, naming the combination; otherwise one member value per row (`PrepareDimensionsDataShape` gives the labels) |
| Intersections.PrepareDimensionsDataShape | diversimax/algorithm.py:39-54 | one label per tuple of the product of first-seen values; one member value per row, which is the label of that row's own values and is among the labels |
| Intersections.PrepareDimensionsDataDistinct | diversimax/algorithm.py:46-47 | over clean cells the labels of a combination are pairwise different |
| Intersections.PrepareAllData | diversimax/algorithm.py:56-76 | succeeds iff every combination enumerates; then the combinations are all non-empty column combinations, the data holds exactly those keys with each one's intersection data; otherwise the error names the first combination that fails |
| Intersections.PrepareEach | diversimax/algorithm.py:69-75 | the loop over a list of combinations: succeeds iff each enumerates, then the map holds exactly those combinations with each one's intersection data; otherwise the error names the first failing combination and every earlier one succeeded |
| Encoding.OneHot | diversimax/algorithm.py:93-94 | a persons-by-labels matrix of 0/1 values, one row per person, as wide as the label list; `OneHotRows` places the 1s |
| Encoding.IndicatorSum | diversimax/algorithm.py:93-94 | over distinct labels, a one-hot row sums to 1 for a known label and to 0 otherwise |
| Encoding.OneHotRows | diversimax/algorithm.py:93-94 | each matrix row has the table's width, holds a 1 exactly in the column of the person's label, and sums to 1 |
| Encoding.RetainedCombsSpec | diversimax/algorithm.py:86-91 | the kept combinations are exactly those with at most 100 labels, in enumeration order |
| Encoding.CreateAllOneHotEncodings | diversimax/algorithm.py:78-96 | the loop yields the one-hot matrices of the kept tables, in order, each at most 100 columns wide |
| LinearModel.TermsValueAppend | diversimax/algorithm.py:128 | the value of a concatenated sum is the sum of the values |
| LinearModel.MipModel.AddVar | diversimax/algorithm.py:114 | appends one variable of the given type and returns its index; constraints and objective are unchanged |
| LinearModel.MipModel.AddConstr | diversimax/algorithm.py:118 | appends one constraint; variables and objective are unchanged |
| LinearModel.MipModel.SetObjective | diversimax/algorithm.py:153 | sets the objective; variables and constraints are unchanged |
| Formulation.CreateDiversityOptimizer | diversimax/algorithm.py:29-33 | a missing participation column fails; otherwise the participation column is kept, the pool loses it, every combination of the remaining columns is enumerated and the retained tables are encoded; an enumeration failure names the first failing combination |
| Formulation.EncodingsAreMatrices | diversimax/algorithm.py:93-95 | every retained matrix has one row per person, each as wide as the table |
| Formulation.FirstRepeatedFrom | diversimax/algorithm.py:113-117 | the first row whose index value also labels another row, or none if every index value is unique |
| Formulation.ForcingConstraints | diversimax/algorithm.py:116-120 | at most one forcing constraint per person; `Feasibility.ForcingHolds` gives what they mean |
| Formulation.RangeConstraints | diversimax/algorithm.py:126-130 | two constraints per category, a min and a max; `Feasibility.RangeHolds` gives what they mean |
| Formulation.CatalogConstraints | diversimax/algorithm.py:124-130 | a failure names a catalog dimension with a range and no pool column; `Feasibility.CatalogConstraintsOutcome` gives the converse and the first such dimension |
| Formulation.PanelSizeConstraint | diversimax/algorithm.py:131 | an equality whose terms are the n person variables, each with coefficient 1, and whose constant is minus the panel size |
| Formulation.DeviationConstraints | diversimax/algorithm.py:146-147 | two lower bounds on the deviation variable, each over the variable and one term per person; `Feasibility.DeviationPairHolds` gives what they mean |
| Formulation.BuildModel | diversimax/algorithm.py:109-153 | fails only on a repeated index value (naming a repeated one), a catalog dimension without column, or a table without labels; a built model has one variable per person plus one per column of the retained tables, and every table has a label; `Feasibility.SatisfiesBuiltModel` and `Feasibility.TightIsOptimalForPanel` give its meaning |
| Formulation.AddPersons | diversimax/algorithm.py:112-121 | one binary variable per person in row order, with x >= 1 for "yes" and x <= 0 for "no"; fails at the first person whose index value is repeated |
| Formulation.AddRanges | diversimax/algorithm.py:126-130 | a min and a max constraint per range, over the persons whose cell is the category name |
| Formulation.AddCatalog | diversimax/algorithm.py:124-130 | the range constraints of every dimension in catalog order, or the first dimension with a range and no pool column |
| Formulation.AddTable | diversimax/algorithm.py:140-149 | one continuous variable per column of the table and the two deviation constraints of each, returning the new variables as objective terms |
| Formulation.AddTables | diversimax/algorithm.py:134-150 | the deviations of all retained tables in order, or failure when a table has no column (division by zero) |
| Formulation.Assemble | diversimax/algorithm.py:109-153 | the model built in place is `BuildModel`'s model, and it fails exactly when `BuildModel` does, with the same error |
| Formulation.Optimize | diversimax/algorithm.py:98-153 | the same for the catalog object, read through its dimension names and ranges |
| Feasibility.ForcingHolds | diversimax/algorithm.py:117-120 | the forcing constraints hold iff every "yes" person has x >= 1 and every "no" person x <= 0; other answers are unconstrained |
| Feasibility.RangeHolds | diversimax/algorithm.py:126-130 | the range constraints of a dimension hold iff each category's selected members lie between its min and max |
| Feasibility.CatalogHolds | diversimax/algorithm.py:124-130 | the range constraints of the whole catalog hold iff every category of every dimension is within range |
| Feasibility.CatalogConstraintsOutcome | diversimax/algorithm.py:124-127 | the catalog constraints are built iff every dimension with a range has a pool column; otherwise the error names the first that has none |
| Feasibility.UnitTermsValue | diversimax/algorithm.py:131 | a unit sum over consecutive variables is the sum of their values |
| Feasibility.DeviationPairHolds | diversimax/algorithm.py:146-147 | a deviation variable's two constraints hold iff it is at least the distance between size and ideal |
| Feasibility.DeviationHolds | diversimax/algorithm.py:143-147 | all deviation constraints hold iff every deviation variable is at least the distance between its column size and ideal |
| Feasibility.BuiltModelVariables | diversimax/algorithm.py:113-115 | the persons' variables come first, binary, one per row; the deviation variables follow, continuous |
| Feasibility.BuiltDomain | diversimax/algorithm.py:114 | an assignment is in the variables' domains iff persons are 0/1 and deviations are non-negative |
| Feasibility.BuiltConstraintsHold | diversimax/algorithm.py:112-150 | the model's constraints hold iff the forced answers, the category ranges, the panel size and the deviation bounds all hold |
| Feasibility.SatisfiesBuiltModel | diversimax/algorithm.py:109-153 | an assignment satisfies the built model iff it is feasible in the declarative sense |
| Feasibility.ObjectiveIsDeviationSum | diversimax/algorithm.py:149-153 | the objective is the unweighted sum of all deviation variables |
| Feasibility.CoverBoundsSum | diversimax/algorithm.py:143-149 | deviation values that cover their slots sum to at least the total deviation |
| Feasibility.ObjectiveLowerBound | diversimax/algorithm.py:134-153 | no feasible assignment has an objective below the sum, over all columns, of the distance between the column size of its panel and the ideal |
| Feasibility.ExactDeviations | diversimax/algorithm.py:143-149 | deviations set to exactly the distance between size and ideal cover their slots and sum to the total deviation |
| Feasibility.TightIsOptimalForPanel | diversimax/algorithm.py:134-153 | for any feasible panel, setting each deviation to the distance between size and ideal stays feasible and reaches that least objective |
| Feasibility.TightFeasible | diversimax/algorithm.py:134-149 | in the declarative sense: the tight assignment of a feasible one keeps its panel, stays feasible, and its deviations sum to the total deviation |
| Feasibility.OnesCount | diversimax/algorithm.py:131 | over 0/1 values, the sum of the persons' values is the number of selected persons |
| Feasibility.WeightedCounts | diversimax/algorithm.py:136-138 | a 0/1 column weighted by a 0/1 selection counts the selected rows in that column |
| Feasibility.DecodedPanel | diversimax/algorithm.py:155 | the decoded selection has exactly panel-size persons, includes every "yes" person, excludes every "no" person, and keeps every category in range |
| Feasibility.SlotsAt | diversimax/algorithm.py:143 | deviation slot `Offset(t) + j` is column j of table t, with that table's ideal size |
| Feasibility.OneHotColumnCounts | diversimax/algorithm.py:136-138 | column j of a one-hot matrix, weighted by a 0/1 panel, counts the selected persons with label j |
| Feasibility.DeviationOfIntersection | diversimax/algorithm.py:134-147 | in a feasible assignment (by `SatisfiesBuiltModel`, one that satisfies the built model), the deviation variable of label j of table t is at least the distance between the number of selected persons whose member value is label j (the `Holders` set) and panel size / number of labels |
| Feasibility.TableDeviationBound | diversimax/algorithm.py:134-147 | the same bound for table t of any list of one-hot tables, from the 0/1 persons and the deviation cover alone |
| Validation.DimensionError | diversimax/utils.py:56-91 | a reason names the checked dimension and is a dimension reason; passing implies a pool column and minima that fit the panel; `DimensionErrorNone` and `DimensionErrorMeaning` give the full iff and each reason's meaning |
| Validation.VerifyData | diversimax/utils.py:45-107 | a missing-participation reason names the absent column; the later reasons are reported only when that column exists; passing implies the column exists and no index value repeats; `VerifyDataPass` gives the full iff |
| Validation.ColumnValues | diversimax/utils.py:60 | the set of a column's cell values, empty cells included |
| Validation.CategoryNames | diversimax/utils.py:61 | the set of a dimension's category names |
| Validation.BoundsError | diversimax/utils.py:74-86 | none iff every range has non-negative bounds and min <= max; otherwise the first bad range, reported as negative before min > max |
| Validation.CatalogError | diversimax/utils.py:56-91 | none iff every dimension passes; otherwise the error of the first dimension that fails |
| Validation.LaterOccurrences | diversimax/utils.py:105-106 | the index values that occur at two rows |
| Validation.DuplicatedIds | diversimax/utils.py:106 | the repeated index values, each once; empty iff the index has no repetition |
| Validation.UnknownValuesEmpty | diversimax/utils.py:60-67 | no unknown value iff every cell of the dimension's column is a category name |
| Validation.UnusedNamesEmpty | diversimax/utils.py:63-71 | no unused category iff every category name occurs in the pool |
| Validation.InvalidValuesEmpty | diversimax/utils.py:97-102 | no invalid participation value iff every cell is "yes", "no" or "?" |
| Validation.DimensionErrorNone | diversimax/utils.py:56-91 | a dimension passes iff it has a pool column, its cells are exactly category names, every category occurs, its ranges are well formed and its mins fit in the panel |
| Validation.DimensionErrorMeaning | diversimax/utils.py:56-91 | each dimension reason names a real fault: a missing column, the unknown values, the unused categories, a bad range, or mins exceeding the panel, and the checks before it passed |
| Validation.VerifyDataPass | diversimax/utils.py:45-107 | the data passes iff every dimension agrees with the pool, the participation column exists and holds only "yes"/"no"/"?", and the index has no repetition |
| Validation.CatalogPassed | diversimax/utils.py:56-91 | when no dimension check fires, every dimension has its column, only known values, no unused category, sane bounds and minima that fit the panel |
| Validation.VerifyDataDimensionFailure | diversimax/utils.py:56-91 | a dimension reason is the reason of the first failing dimension, and every dimension before it agrees with the pool |
| Validation.VerifyDataMissingColumn | diversimax/utils.py:93-95 | a missing participation column is reported only when the column really is absent and all dimensions passed |
| Validation.VerifyDataInvalidParticipation | diversimax/utils.py:97-102 | an invalid-participation reason carries exactly the column values outside yes/no/? (missing cells included), non-empty, after the dimensions passed |
| Validation.VerifyDataDuplicatedIndex | diversimax/utils.py:104-107 | a duplicated-index reason lists each id that occurs twice or more, once, non-empty, after every earlier check passed |
| Validation.CatalogConstraintsOk | diversimax/algorithm.py:124-130 | when every catalog dimension has a pool column, the range constraints are built |
| Validation.DistinctNotRepeated | diversimax/algorithm.py:113-117 | over a repetition-free index no person's index value is repeated |
| Validation.AcceptedDataBuilds | diversimax/utils.py:94-107 | an optimizer made from data that passes the checks builds its model unless a table has no column; every participation value is an allowed one |

## Left out

- The search itself (`m.optimize()`, diversimax/algorithm.py:154) and the
  solver's status are not modelled. The model is stated as data, together
  with what satisfies it and what its least objective is for a fixed panel.
- The decoding of solver values uses floating-point `.eq(1)`. Here
  selection is the set of persons whose value is exactly 1.
- Reading the catalog and the pool from CSV or Excel files
  (`read_categories_file`, `read_pool_members_file`) is file I/O and is
  left out. Building a catalog from rows is repeated `AddCategoryRange`.
- The command-line script `main.py` and the browser demo page are not part
  of this model.
- pandas, numpy and scikit-learn are replaced by sequences.
  - Column selection with a missing column, and joining an empty cell,
    become error results.
  - scikit-learn's refusal of an empty pool is not modelled.
  - An empty table shows up as the division-by-zero error
    `EmptyIntersectionTable` instead.
- The exception re-wrapping and `print` at diversimax/algorithm.py:73-75
  become an error result naming the failing combination.
- Every cell is a string. A numeric cell that pandas would keep as a number
  is not modelled, and neither is the `isinstance(..., int)` check of
  diversimax/utils.py:75: bounds are integers by type.
- Variable names given to the solver (`name=str(person_id)`) are not
  modelled.
- Looking up a person's participation by index value is modelled by row
  position. The two agree when the index has no repetition, and a repeated
  index value is the error `AmbiguousParticipation`.
- Error messages are modelled by the data each error carries, not by their
  text.
- `verify_data` reports an unused category with a message beginning
  "Warning", and its documentation comment (diversimax/utils.py:51) calls
  the check only recommended. The code raises an error all the same, and
  the model follows the code: an unused category is a failure.
- Labels are distinct only for clean values: no "__" inside a value, and
  no trailing "_" (`Labels.Clean`). Values without "__" are not enough, as
  `Labels.NoSeparatorIsNotEnough` shows. The distinctness lemmas require
  clean cells.
- `Encoding.OneHot` puts a 1 in every column whose label is the person's
  label. When a table repeats a label, that row gets several 1s, and
  scikit-learn's encoder behaves otherwise. Over clean cells the labels are
  distinct (`Intersections.PrepareDimensionsDataDistinct`), and each row
  holds a single 1 (`Encoding.OneHotRows`).
- `Validation.AcceptedDataBuilds` requires that the participation column
  is not also a catalog dimension. When it is, the optimizer has dropped
  that column, and building the model fails on a missing dimension column.
