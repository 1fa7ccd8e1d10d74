# Sheets: a verified model of the spreadsheet's formula and dependency core

The spreadsheet is a browser grid of cells named `A1`, `B12`, … that hold typed
text or formulas such as `=SUM(A1:B3)` or `=(A1+2)*B1`. This project models,
in Dafny, the parts of it that decide what a cell holds:

- `FormulaHandler` (formula.js). It evaluates a formula. A call of SUM,
  AVERAGE, MAX, MIN, COUNT, TRIM, UPPER or LOWER reads a range or a single
  value. Anything else is arithmetic: each cell reference is replaced by its
  number, then the text is rewritten, innermost parenthesis group first,
  products before sums, leftmost first, and read back with `parseFloat`.
- `SpreadsheetDB` (database.js). It keeps the workbook: sheets by name, the
  active sheet, and the cell records with content, formula and style. It also
  implements adding, deleting and switching sheets, reading and updating
  cells and styles, deleting a row or a column, and find-and-replace.
- `Spreadsheet` (app.js). This is the page object:
  - the two dependency maps, `cellDependencies` (cell → the ids its formula
    mentions) and `dependentCells` (id → the cells whose formulas mention it);
  - `handleCellChange`, which stores an edit, relinks the maps and evaluates
    a formula;
  - `updateDependentCells`, which walks the dependents and recalculates them;
  - the bounded undo history.

The modules follow the program:

| module | file | models |
|---|---|---|
| `Text`, `Numbers` | text.dfy, numbers.dfy | the JavaScript string and number primitives the code calls: `trim`, case mapping, `split`, `replaceAll`, `Set` order, `parseFloat`, `isNaN`, IEEE-style arithmetic on exact reals |
| `CellIds` | cellids.dfy | the `/[A-Z]+[0-9]+/` pattern, both `parseCellId`s, `getColumnLabel`/`indexToColumn` and `columnToIndex` |
| `Calc`, `CalcLaws` | calc.dfy, calc_laws.dfy | `calculateExpression`/`calculateSimpleExpression`, and what that rewriting computes |
| `Formula`, `FormulaLaws` | formula.dfy, formula_laws.dfy | the rest of `FormulaHandler` and the laws of its range functions |
| `Records`, `Rekeying`, `Replacing`, `Workbook` | records.dfy, rekey.dfy, sweep.dfy, workbook.dfy | `SpreadsheetDB` as a class over its three fields, with the row/column rebuild and find-and-replace passes |
| `Dependencies`, `Propagation`, `App` | graph.dfy, walk.dfy, spreadsheet.dfy | the dependency maps, the recalculation walk and the `Spreadsheet` class |

Functions of the source that change state in place become methods of the
`SpreadsheetDB` and `Spreadsheet` classes. Each such method is proved against
a function that states the new state. Loops become `while` loops with
invariants, proved against the same functions.

Some of what the code does is not the conventional reading. The model keeps
the code's behaviour and proves its consequences:

- Arithmetic rewrites text, so a negative intermediate result loses its
  sign. `1-2+5` gives -6, and `2-3-4` gives NaN
  (`CalcLaws.NegativeTotalLosesSign`, `CalcLaws.TwoDifferencesGiveNaN`).
  Without zero divisors and negative running totals it agrees with
  conventional precedence (`CalcLaws.CalcSimpleIsConventional`).
- An unmatched `(` makes the parenthesis loop run forever
  (`CalcLaws.UnclosedGroupHangs`). Balanced text without `()` always ends
  (`CalcLaws.BalancedTerminates`). The model reports the endless case as
  `Loops`/`Hangs`/`Frozen`; the code would raise no `#ERROR!` there.
- A formula without references, such as `=5`, keeps the cell's old entry in
  `cellDependencies` (`Dependencies.RelinkStale`). So only one direction of
  the "depends on ⇔ is a dependent of" correspondence is kept.
- The recalculation walk recalculates only dependents that are on the grid
  and hold a formula. It queues the dependents of a cell only when it
  recalculated it.

## Model

| member | source | states |
|---|---|---|
| Text.Trim | formula.js:78 | the result is the input with white space removed from both ends only: a slice of the input, framed by white space, that neither starts nor ends with white space |
| Text.TrimIdempotent | formula.js:73-79 | trimming a second time changes nothing |
| Text.TrimEmptyIff | formula.js:78 | a text trims to nothing exactly when it is all white space |
| Text.ToUpper | formula.js:81-84 | on ASCII letters: same length, no lower-case letter left, every character the same letter (or symbol) as before |
| Text.ToLower | formula.js:86-89 | on ASCII letters: same length, no capital left, every character the same letter (or symbol) as before |
| Text.CaseMappingKeepsOthers | formula.js:81-89 | characters that are not letters are kept by both case mappings |
| Text.Split | database.js:433 | no part contains the separator, and joining the parts with it gives the text back |
| Text.SplitJoin | formula.js:99 | splitting a join of separator-free parts gives the parts back |
| Text.ReplaceAllAbsent | database.js:442 | without an occurrence of the search text, `replaceAll` returns the text unchanged |
| Text.ReplaceAllSelf | database.js:455 | replacing a text without `$` by itself changes nothing |
| Text.NatToString | database.js:172 | `String(n)`: digits only, one digit exactly below 10, no leading zero |
| Text.NatToStringValue | database.js:172 | the numeral `String(n)` denotes n |
| Text.Dedup | app.js:2146 | `Array.from(new Set(s))`: no repeats, and exactly the members of `s` |
| Text.DedupOrder | app.js:2146 | the members come in the order of their first occurrence |
| Text.Remove | app.js:2115 | `Set.delete(x)`: x is gone, every other member stays, no repeats appear |
| Text.Add | app.js:2139 | `Set.add(x)`: x is present, every other member stays, no repeats appear |
| Numbers.DecimalPrefix | formula.js:171 | a numeric prefix exists exactly when the text starts with a digit or with a point and a digit, and its value is non-negative |
| Numbers.ParseFloat | formula.js:171 | `parseFloat`: an infinity exactly when the unsigned text starts with `Infinity`, finite exactly when it starts with a decimal literal, non-negative without a minus sign |
| Numbers.ParseNatToString | formula.js:161-162 | a printed natural number reads back as itself |
| Numbers.ParseFloatStops | formula.js:161-162 | digits followed by an operator read as the digits' value |
| Numbers.ParseTrimmedDigits | formula.js:46 | digits with white space around them read as their value |
| Numbers.ReferenceNumber | formula.js:137-138 | `isNaN(v) ? 0 : parseFloat(v)`: NaN exactly for blank text, 0 for non-numeric text, a stored number kept |
| Numbers.ReferenceNumberOfNumeric | formula.js:138 | on text that `Number` accepts, `parseFloat` is NaN exactly when the text is blank |
| Numbers.ReferenceNumberOfNumeral | formula.js:136-139 | a cell holding the numeral of k, spaces allowed, contributes k |
| Numbers.Add | formula.js:4 | NaN exactly for a NaN operand or opposite infinities; finite operands add exactly |
| Numbers.Mul | formula.js:6 | finite operands multiply exactly |
| Numbers.Div | formula.js:7 | finite division by non-zero is exact, a positive number over zero is +∞, 0/0 is NaN |
| Numbers.OrZero | formula.js:46 | `x \|\| 0`: never NaN; NaN and zero become zero, anything else is kept |
| CellIds.SpansFrom | formula.js:136 | the scan for `/[A-Z]+[0-9]+/g` yields maximal references, left to right, without overlap |
| CellIds.SpansFromComplete | formula.js:136 | every maximal reference after a scan point is found |
| CellIds.CellRefs | app.js:2145-2146 | every match is a whole cell reference |
| CellIds.CellRefsExactly | app.js:2145-2146 | a text is a match exactly when it occurs as a cell reference with no capital before and no digit after |
| CellIds.CellRefsSound | formula.js:136 | every match is a maximal reference of the text |
| CellIds.CellRefsComplete | formula.js:136 | every maximal reference of the text is a match |
| CellIds.CellRefsOfRef | formula.js:94-95 | a whole cell id is its own single match |
| CellIds.FirstUpperRun | database.js:470 | `match(/[A-Z]+/)`: found exactly when the text has a capital; the result is the leftmost maximal run of capitals (no capital before it, none right after it) |
| CellIds.FirstDigitRun | database.js:471 | `match(/[0-9]+/)`: found exactly when the text has a digit; the result is the leftmost maximal run of digits (no digit before it, none right after it) |
| CellIds.SplitCellId | app.js:1273-1277 | succeeds exactly when both a capital run and a digit run exist (otherwise `[0]` of null throws) |
| CellIds.ParseCellId | database.js:469-473 | succeeds exactly when the app's split does; the column is non-empty capitals |
| CellIds.SplitCellIdOfRef | app.js:1273-1277 | both `parseCellId`s take `letters + digits` apart into the letters and the digits (or their value) |
| CellIds.ParseCellIdOfCellId | database.js:469-473 | `parseCellId` undoes writing `col + row` |
| CellIds.CellIdInjective | database.js:169-176 | two ids are equal exactly when column and row are |
| CellIds.ColumnLabel | app.js:2716-2723 | the label is empty exactly for a negative index, and all capitals |
| CellIds.ColumnLabelValue | app.js:2716-2723 | the label of i denotes i + 1 in bijective base 26 |
| CellIds.ColumnLabelOfValue | app.js:2716-2723 | every non-empty capital string is the label of the index it denotes minus one |
| CellIds.PlainBijective | database.js:617-623 | `columnToIndex` reads a label as its bijective value less 1 + 26 + … + 26^(n-1) |
| CellIds.ColumnToIndexOfLabel | database.js:617-633 | `columnToIndex(indexToColumn(i)) == i` exactly when i < 26 |
| CellIds.IndexToColumn | database.js:626-633 | the loop computes the column label of the index |
| CellIds.ColumnToIndex | database.js:617-623 | the loop computes the plain base-26 reading |
| Calc.Render | formula.js:161-162 | a printed result re-enters the text as at least one token, without parenthesis, not starting with `)`, with at most one numeral |
| Calc.FirstMatch | formula.js:160-161 | `replace` rewrites the leftmost `number op number`: it matches there and nowhere before; None means no match anywhere |
| Calc.RewriteCounts | formula.js:161-162 | a rewrite leaves fewer numerals and the same number of `(` |
| Calc.Reduce | formula.js:160-163 | a rewriting loop adds and removes no `(` |
| Calc.ReduceFinishes | formula.js:160-169 | a rewriting loop stops only once its pattern matches nowhere |
| Calc.GroupEnd | formula.js:151 | `/\(([^()]+)\)/` at the front: `(`, at least one token without parentheses, `)` |
| Calc.GroupValue | formula.js:151-152 | the printed value of a group is at least one token, without parenthesis, not starting with `)` |
| Calc.ReplaceGroupsBy | formula.js:151-152 | a round that finds no group returns the text unchanged |
| Calc.ReplaceGroups | formula.js:150-153 | a parenthesis round that finds no group changes nothing |
| Calc.GroupOpens | formula.js:151 | a group at the front holds exactly one `(` |
| Calc.GroupReplaced | formula.js:151-152 | a group at the front gives way to the value of its inside, and the round goes on after it |
| Calc.ReplaceGroupsOpens | formula.js:150-153 | a round never adds a `(`, and one that finds a group removes at least one |
| Calc.RunLength | formula.js:160 | the run of digits and points at the front, maximal |
| Calc.Strip | formula.js:147 | no white space is left, and the text grows no longer |
| Calc.CalculateSimpleExpression | formula.js:158-172 | the two loops and `parseFloat` compute `CalcSimple`, whose laws are in `CalcLaws` |
| Calc.CalculateExpression | formula.js:145-156 | the loop computes `Calculate`, reporting the endless case |
| CalcLaws.Collapse | formula.js:160-163 | every product computed leaves a plain numeral followed by `± n` terms |
| CalcLaws.HeadCollapse | formula.js:160-163 | computing a leading product first changes no product's value |
| CalcLaws.RewriteCollapse | formula.js:160-163 | rewriting the leftmost product keeps the text plain and the products' values |
| CalcLaws.CollapseNoProducts | formula.js:160 | text with no product left is already collapsed |
| CalcLaws.ProductsPhase | formula.js:160-163 | the first loop computes exactly the products, conventionally |
| CalcLaws.SumsPhase | formula.js:166-169 | the second loop folds the sums left to right while no running total is negative |
| CalcLaws.CalcSimpleIsConventional | formula.js:158-172 | without zero divisors and negative running totals the result is the conventional value |
| CalcLaws.NegativeTotalLosesSign | formula.js:166-171 | `1-2+5` gives -6 where the conventional value is 4 |
| CalcLaws.NegativeReduces | formula.js:160-169 | the loops take `1-2+5` to `-6` |
| CalcLaws.ParseNegated | formula.js:171 | one leading minus is read as a sign |
| CalcLaws.ParseTwoSigns | formula.js:171 | two leading minus signs read as NaN |
| CalcLaws.TwoDifferencesGiveNaN | formula.js:166-171 | `2-3-4` gives NaN where the conventional value is -5 |
| CalcLaws.TwoDifferencesReduce | formula.js:166-169 | the loops take `2-3-4` to `--3` |
| CalcLaws.GroupExists | formula.js:150-151 | nested text holding a `(` and no `()` holds an innermost group |
| CalcLaws.ReplaceGroupsFinds | formula.js:151 | a round finds a group whenever the text holds one |
| CalcLaws.ReplaceGroupsNested | formula.js:151-152 | a round keeps parentheses nested |
| CalcLaws.ReplaceGroupsNoEmpty | formula.js:151-152 | a round creates no `()` |
| CalcLaws.BalancedTerminates | formula.js:150-155 | with nested parentheses and no `()` the loop ends |
| CalcLaws.UnclosedGroupHangs | formula.js:150-153 | `(1` keeps the loop running forever |
| Formula.RowIds | formula.js:109-111 | one id per column of the row |
| Formula.RowIdsAt | formula.js:109-110 | column c1 + j of the row comes at position j |
| Formula.GridLength | formula.js:108-113 | n rows hold n times the width ids |
| Formula.GridIndex | formula.js:108-113 | row-major order: row r1 + i, column c1 + j at position i · width + j |
| Formula.CallForm | formula.js:29 | `/^([A-Z]+)\((.*)\)$/`: a capital name, and the formula is `name(args)` |
| Formula.KnownCall | formula.js:29-33 | only the eight function names dispatch |
| Formula.RangeEnds | formula.js:99 | both ends come out trimmed |
| Formula.Resolved | formula.js:111 | one value per id, in order, each the resolver's value |
| Formula.RangeOfRefs | formula.js:98-113 | `A1:C2`-style text denotes the rectangle between its ends |
| Formula.SplitRange | formula.js:99 | splitting `a:b` gives the two ends back |
| Formula.RangeValuesOfRef | formula.js:94-95 | a single id reads that cell |
| Formula.RangeValuesLiteral | formula.js:99-100 | a missing end makes the argument its own value |
| Formula.RangeValuesRectangle | formula.js:99-114 | two ends read the rectangle's cells in order, or throw |
| Formula.GetColumnIndex | formula.js:117-124 | throws exactly when there is no capital; otherwise the plain base-26 reading of the first capital run |
| Formula.GetRangeValues | formula.js:92-115 | computes `RangeValues` |
| Formula.ReadBetween | formula.js:102-114 | both ends need a column and a row, or the lookups throw; otherwise the rectangle is read |
| Formula.ReadRectangle | formula.js:107-113 | the nested loops read every cell of the rectangle, rows outside, columns inside |
| Formula.ReadRow | formula.js:109-112 | the inner loop reads one row left to right |
| Formula.Numerics | formula.js:57 | no NaN; every value that parses is included and nothing else |
| FormulaLaws.ParsedPositions | formula.js:57 | the positions of the values that parse, strictly increasing, each in range, none missing |
| FormulaLaws.NumericsIsFilter | formula.js:57 | the numbers are exactly the parsed values at those positions, in range order, as many as there are positions |
| FormulaLaws.NumericsCount | formula.js:57 | there are as many numbers as cells whose value parses |
| Formula.MaxOf | formula.js:58 | `Math.max`: a member, and no member is larger |
| Formula.MinOf | formula.js:64 | `Math.min`: a member, and no member is smaller |
| Formula.Aggregate | formula.js:67-70 | COUNT is the number of values that parse |
| FormulaLaws.CountIsParsedCells | formula.js:67-70 | COUNT is the size of the set of positions whose value parses |
| Formula.TextFunction | formula.js:73-89 | TRIM is `Trim` of the text and leaves nothing to trim, UPPER is `ToUpper` and leaves no lower-case ASCII letter, LOWER is `ToLower` and leaves no ASCII capital |
| Formula.ApplyFunction | formula.js:33 | a range function gives `#ERROR!` exactly when its range throws, and otherwise the number `Aggregate` computes from the range's values; a text function gives `TextFunction` of the argument cell's text |
| Formula.Evaluate | formula.js:22-41 | text not starting with `=` is its own value; after `=` and trimming, a call of one of the eight functions is that function on its trimmed argument, anything else is the arithmetic of the trimmed text; the endless loop needs a `(` in the formula |
| Formula.CallRecognised | formula.js:29-33 | `NAME(args)` with one of the eight names and arguments on one line is recognised as that call on the trimmed arguments |
| Formula.EvaluateCall | formula.js:22-33 | `=NAME(args)` evaluates to the function applied to the trimmed arguments |
| Formula.LoopsNeedParen | formula.js:145-153 | arithmetic loops forever only when the expression holds a `(` |
| Formula.TrimIsSlice | formula.js:26 | trimming adds no character |
| Formula.EvaluateReadsOnly | formula.js:22-41 | resolvers that agree on the ids the formula reads give the same result |
| Formula.RangeFrame | formula.js:92-115 | a range result depends only on the ids it reads |
| Formula.ExpressionFrame | formula.js:134-143 | arithmetic depends only on the references in the expression |
| Formula.SubstituteFrame | formula.js:136-139 | the substitution depends only on the referenced cells |
| FormulaLaws.SumIsTotal | formula.js:44-47 | without infinities, SUM is the total of the values that parse |
| FormulaLaws.AverageIsMean | formula.js:49-53 | without infinities, AVERAGE is that total over the count |
| FormulaLaws.AverageBetween | formula.js:49-65 | MIN ≤ AVERAGE ≤ MAX when a number is present and none is infinite |
| FormulaLaws.AggregateMin | formula.js:61-65 | MIN of a range with numbers is the least of them |
| FormulaLaws.AggregateMax | formula.js:55-59 | MAX of a range with numbers is the greatest of them |
| FormulaLaws.MeanBetween | formula.js:49-65 | the mean of finite numbers lies between their least and greatest |
| FormulaLaws.MinMaxBounds | formula.js:55-65 | MIN and MAX of finite numbers are finite and bound each one |
| FormulaLaws.CountAtMost | formula.js:67-70 | COUNT never exceeds the number of values |
| FormulaLaws.NoNumbersGiveZero | formula.js:44-70 | a range where nothing parses gives 0 for every range function, SUM, AVERAGE, MAX and MIN included |
| Records.MergeStyleFields | database.js:144 | a style field takes the patch's value when given and keeps its own otherwise; merging twice is merging once |
| Records.AssignFields | database.js:136 | an update sets exactly the fields it carries and keeps the style; applying it twice is applying it once |
| Records.WithCell | database.js:110-131 | `getCell` creates a blank record for an unknown id and appends the id; every other cell and the sheet size stay |
| Records.Patched | database.js:133-139 | `updateCell` changes only the one cell, to the update applied to its record |
| Records.Styled | database.js:141-147 | `updateCellStyle` changes only the one cell's style, merged with the patch |
| Records.FreshName | database.js:49-57 | the generated name is not taken and starts with `Sheet` |
| Records.FreshNameNumbered | database.js:51-56 | the generated number is at least the starting one |
| Records.FreshNameAfter | database.js:53-56 | skipping taken names does not change where the search ends |
| Records.FreshNameOwn | database.js:49-62 | a generated name is never empty and never a name objects inherit, so it is never refused |
| Rekeying.Rekey | database.js:166-179 | the rebuilt cells list each new id once, and exactly the stored ones |
| Rekeying.RekeyFails | database.js:169-170 | the rebuild throws exactly when some id does not parse |
| Rekeying.RekeyKeys | database.js:169-177 | the new ids are exactly the targets of the kept cells |
| Rekeying.RekeyValues | database.js:169-177 | without collisions each kept cell is found, unchanged, under its new id |
| Rekeying.RowOrigin | database.js:171-176 | a kept cell of `deleteRow(k)` keeps its id below row k and came from one row down otherwise |
| Rekeying.DeleteRowInjective | database.js:164-182 | on canonical ids `deleteRow` sends no two cells to one id and never throws |
| Rekeying.DeleteRowShifts | database.js:164-182 | rows above k stay, row k and later take the cells from one row down, the old row k is gone |
| Rekeying.ColumnOrigin | database.js:197-205 | a kept cell of `deleteColumn(c)` keeps its id left of c and came from one column right otherwise |
| Rekeying.DeleteColumnInjective | database.js:190-211 | on one-letter ids `deleteColumn` sends no two cells to one id and never throws |
| Rekeying.DeleteColumnShifts | database.js:190-211 | columns left of c stay, column i ≥ c takes column i + 1's cells, and Z is left empty |
| Rekeying.ColumnMoves | database.js:199-205 | the cell written in column i is the old cell of the same or the next column |
| Rekeying.ColumnEmptied | database.js:199-202 | nothing is moved into column Z |
| Replacing.Step | database.js:440-447 | a visit throws exactly on a truthy (non-zero, non-NaN) number content; otherwise it counts exactly a changed cell and stores it replaced |
| Replacing.Advance | database.js:437-449 | a visit adds at most one to the count |
| Replacing.Resume | database.js:437-461 | a pass adds at most one per visited cell |
| Replacing.ResumeKeepsSheet | database.js:437-461 | a pass keeps the sheet size and the id list in step with the cells |
| Replacing.ResumeThrew | database.js:442 | after a throw nothing more happens |
| Replacing.ResumeConcat | database.js:437-449 | a pass over `a + b` is a pass over `a` continued over `b` |
| Replacing.SweepEffect | database.js:425-466 | over distinct ids: throws exactly when a truthy (non-zero, non-NaN) number content is met; otherwise counts the changed cells, every visited cell replaced, every other cell untouched |
| Replacing.ReplaceWithItself | database.js:442 | replacing a text by itself counts and changes nothing |
| Replacing.RangeEnds | database.js:433 | the two ends hold no `:` |
| Replacing.RangeVisit | database.js:432-439 | a `START:END` range visits no cell twice |
| Replacing.GridBetween | database.js:434-439 | the rectangle between the parsed ends lists no id twice |
| Replacing.RangeVisitOfRefs | database.js:433-439 | `A1:C2`-style ranges visit the rows first to last, each column first to last |
| Replacing.GridDistinct | database.js:437-439 | within columns A to Z no id repeats in a rectangle |
| Replacing.GridMember | database.js:437-439 | every visited id lies in the rectangle's rows and columns |
| Replacing.Visit | database.js:432-452 | on a sheet whose id list names each cell once, no cell is visited twice, whether the range is empty (every cell) or a rectangle |
| Workbook.FirstOther | database.js:89-93 | `find(sheet => sheet !== name)`: another sheet, with only `name` before it |
| Workbook.SwitchSheetAsWritten | database.js:101-108 | switches exactly when the name has a sheet or is inherited |
| Workbook.SwitchSheetAsWrittenLosesActive | database.js:101-108 | switching to `toString` leaves no sheet active |
| Workbook.SwitchedTo | database.js:101-108 | the active sheet stays a sheet and changes exactly to a name that has one |
| Workbook.ReplaceSheetOk | database.js:133-147 | replacing a sheet by a well-formed one keeps the workbook invariant |
| Workbook.AddSheetOk | database.js:65-72 | adding a fresh, own name keeps the invariant |
| Workbook.DeleteSheetOk | database.js:88-96 | deleting one of two or more sheets, the active one moved off it, keeps the invariant |
| Workbook.RebuildRows | database.js:166-177 | the loop builds `Rekey` with the row fates |
| Workbook.RebuildColumns | database.js:192-206 | the loop builds `Rekey` with the column fates |
| Workbook.SpreadsheetDB.constructor | database.js:2-18 | one empty 26×50 sheet, `Sheet1`, active |
| Workbook.SpreadsheetDB.AddSheet | database.js:47-75 | a taken or inherited name is refused with no change; otherwise an empty sheet is added and made active; a generated name always succeeds |
| Workbook.SpreadsheetDB.DeleteSheet | database.js:77-99 | refused for the last sheet or an unknown name; an inherited name is reported deleted with no change; otherwise the sheet goes and the first other sheet becomes active if needed |
| Workbook.SpreadsheetDB.SwitchSheet | database.js:101-108 | the corrected switch: the active sheet changes exactly to a name with a sheet |
| Workbook.SpreadsheetDB.GetCell | database.js:110-131 | none for an unknown sheet; otherwise the record, created blank if missing |
| Workbook.SpreadsheetDB.UpdateCell | database.js:133-139 | the sheet becomes `Patched`; an unknown sheet changes nothing |
| Workbook.SpreadsheetDB.UpdateCellStyle | database.js:141-147 | the sheet becomes `Styled`; an unknown sheet changes nothing |
| Workbook.SpreadsheetDB.DeleteRow | database.js:164-182 | the active sheet's cells are rebuilt by the row fates and the row count drops; an id that does not parse throws with no change |
| Workbook.SpreadsheetDB.DeleteColumn | database.js:190-211 | the same for columns, with the column count dropping |
| Workbook.SpreadsheetDB.FindAndReplace | database.js:425-466 | an empty search returns 0; otherwise the active sheet becomes the pass over `Visit`, and the count is returned unless a visit threw |
| Workbook.ReplaceIn | database.js:432-462 | the body after the empty-search test: a bad range throws before any change, otherwise the pass |
| Workbook.ReplaceBetween | database.js:434-449 | with both ends parsed, the pass over the rectangle; a missing end throws |
| Workbook.GenerateName | database.js:49-57 | the loop finds the first free `Sheet${n}` |
| Workbook.ReplaceInRange | database.js:437-449 | the nested loops make the pass over the rectangle |
| Workbook.ReplaceInRow | database.js:438-448 | the inner loop continues the pass over one row |
| Workbook.ReplaceInSheet | database.js:452-461 | the loop makes the pass over every cell in order |
| Workbook.VisitCell | database.js:439-447 | one visit is one `Advance` |
| Dependencies.ExtractCellReferences | app.js:2144-2147 | no repeats, and exactly the matches of the pattern |
| Dependencies.ExtractExactly | app.js:2144-2147 | a text is extracted exactly when it occurs as a maximal cell reference |
| Dependencies.ExtractOrder | app.js:2146 | the references come in order of first occurrence |
| Dependencies.UnlinkedAt | app.js:2110-2121 | each old reference's set loses the cell, emptied sets go, nothing else changes |
| Dependencies.LinkOneInTwo | app.js:2136-2139 | creating the missing set and then adding is one `LinkOne` |
| Dependencies.LinkedStep | app.js:2135-2140 | the linking loop one reference further |
| Dependencies.LinkedAt | app.js:2135-2140 | every reference's set gains the cell, missing sets are created, nothing else changes |
| Dependencies.ClearedNone | app.js:2110-2121 | on a well-shaped graph, after clearing no set names the cell and no set is empty |
| Dependencies.LinkKeepsGraph | app.js:2130-2141 | recording and linking references keeps the graph's shape |
| Dependencies.ClearKeepsGraph | app.js:2110-2127 | clearing keeps the shape, with or without the cell's entry |
| Dependencies.RelinkKeepsGraph | app.js:2108-2142 | every call keeps the shape: no repeats, no empty set, every dependent edge recorded the other way |
| Dependencies.RelinkNoFormula | app.js:2123-2127 | a non-formula removes the cell's entry and takes it out of every set |
| Dependencies.RelinkFormula | app.js:2129-2141 | a formula with references records them, and exactly their sets name the cell |
| Dependencies.RelinkStale | app.js:2129-2132 | a formula without references keeps the old entry while no set names the cell |
| Dependencies.RelinkIdempotent | app.js:2108-2142 | calling twice gives the same references as calling once, and dependent sets with the same members |
| Dependencies.RelinkAgain | app.js:2110-2140 | clearing and relinking the same references gives sets with the same members |
| Dependencies.ClearAgain | app.js:2110-2121 | clearing twice is clearing once |
| Propagation.TouchAt | app.js:2164-2167 | the resolver's reads change no cell's appearance, only create records |
| Propagation.RecalculateAt | app.js:2162-2172 | the cell stores the evaluated value with its formula and style, and every other cell looks as before |
| Propagation.RefreshAt | app.js:2156-2180 | a visit recalculates exactly a rendered cell with a formula, and changes only that cell's content |
| Propagation.UnvisitedShrinks | app.js:2155-2158 | visiting a new cell leaves less to do, so the walk ends on every graph, cyclic ones included |
| Propagation.WalkOnce | app.js:2152-2181 | every queued cell is marked; each cell is recalculated at most once, and only a newly marked one |
| Propagation.WalkCloses | app.js:2175-2178 | every dependent of a recalculated cell is visited |
| Propagation.WalkReaches | app.js:2152-2181 | every visited cell was queued at the start or depends on a recalculated cell |
| Propagation.WalkKeeps | app.js:2155-2181 | formulas and styles stay, untouched cells look as before, the grid keeps its size |
| Propagation.WalkValues | app.js:2155-2178 | the cell recalculated at position `i` ends up holding what its formula evaluates to against the sheet `Trace` records for that visit, and that sheet shows the cells recalculated before it as they end up and every other cell as the walk found it |
| Propagation.WalkChooses | app.js:2160-2163 | a newly marked cell is recalculated exactly when rendered and holding a formula |
| Propagation.WalkUnfold | app.js:2156-2178 | one step on an unvisited cell, and that it brings the walk closer to its end |
| Propagation.PropagateFacts | app.js:2149-2182 | `updateDependentCells` all together: once-only, closure over dependents, reach, choice, formulas and styles kept, untouched cells unchanged, grid size kept |
| Propagation.PropagateValues | app.js:2149-2182 | the cell `updateDependentCells` recalculates `k`-th holds what its formula evaluates to against the sheet showing the `k` cells recalculated before it as they end up and every other cell as before the call |
| Propagation.PropagateReaches | app.js:2149-2182 | a dependent of the changed cell or of a recalculated one is recalculated exactly when rendered with a formula |
| App.PushedBounded | app.js:2726-2732 | the history keeps at most its bound, the new command last, the most recent ones before it in order |
| App.TouchAll | app.js:2164-2167 | the resolver's `getCell` calls, one per id read |
| App.Recompute | app.js:1254-1262 | evaluate and store: the sheet becomes `Recalculate`'s, or nothing when evaluation never ends |
| App.Store | app.js:1259-1262 | the reads, then `updateCell` with the value and formula |
| App.WalkDependents | app.js:2152-2181 | the loop makes `Walk` from the given queue |
| App.WalkStep | app.js:2156-2179 | one turn keeps what the rest of the walk gives and brings it closer to its end |
| App.VisitDependent | app.js:2157-2180 | a visit skips a cell off the grid, fetches a cell without formula, recalculates one with a formula |
| App.RefreshRendered | app.js:2162-2178 | the visit of a rendered cell |
| App.RefreshOutcome | app.js:2157-2180 | a visit's outcome is one step of `Refresh` |
| App.CellChangeWalk | app.js:1246-1269 | the walk runs from the stored edit, or from the recalculated formula |
| App.TextEditStays | app.js:1246-1249 | typed plain text stays as typed, with no formula and the old style, whatever the walk does |
| App.FormulaEditValue | app.js:1252-1262 | a typed formula stays the cell's formula and style; the cell holds what the formula evaluates to against the sheet with the typed text stored, or, when the walk recalculates the cell again, against the sheet at that visit (the cells recalculated before it as they end up, the others as after the first evaluation) |
| App.EditRecalculates | app.js:1228-1270 | every other rendered formula cell that reads the edited cell, or a recalculated one, is recalculated; only rendered cells reached that way are |
| App.Spreadsheet.constructor | app.js:2-57 | a fresh workbook, empty maps, empty history bounded by 100 |
| App.Spreadsheet.UpdateCellDependencies | app.js:2108-2142 | both maps become `Relink`'s, keeping their shape |
| App.Spreadsheet.ClearDependents | app.js:2110-2121 | the clearing loop gives `Cleared` |
| App.Spreadsheet.LinkDependents | app.js:2135-2140 | the linking loop gives `Linked` |
| App.Spreadsheet.UpdateDependentCells | app.js:2149-2182 | the active sheet becomes `Propagate`'s, or the page freezes |
| App.Spreadsheet.HandleCellChange | app.js:1228-1270 | the maps become `Relink`'s and the active sheet `CellChange`'s, or the page freezes |
| App.Spreadsheet.SettleEdit | app.js:1252-1269 | evaluation of a formula, then the walk |
| App.Spreadsheet.AddToHistory | app.js:2726-2732 | push, drop the oldest entry past the bound, clear the redo stack |

## Left out

- IEEE-754 rounding: numbers are exact reals with the infinities and NaN. Negative zero is not distinguished.
- Printing numbers: `String(x)` for a finite number is the parameter `show` where text functions need it. Inside arithmetic a printed result re-enters as a numeral token. A printed number in exponent form (`1e21`) is therefore not re-read the way the code would read it.
- The `getCellValue` callback and `document.querySelector` are parameters: the resolver is built from the active sheet, and `rendered` says whether a cell is on the grid.
- The endless parenthesis loop is reported as a frozen page (`Loops`, `Hangs`, `Frozen`) instead of running forever.
- JavaScript object key order: integer-like keys would come first. The model keeps names and cell ids in insertion order.
- Workbook.SpreadsheetDB.GetCell: a cell id that objects inherit (such as `toString`) is treated as unknown. The record is not found on the prototype.
- Ranges with column labels of two or more letters in `findAndReplace`: only the first letter is read, as in the code. Their meaning is not proved beyond that.
- Workbook.SpreadsheetDB.DeleteRow and Workbook.SpreadsheetDB.DeleteColumn: the shift lemmas are proved for sheets whose ids are canonical (or one-letter). Other ids are modelled as the code treats them, without a shift lemma.
- `localStorage` loading and saving, `getAllSheets` as a separate call, `addColumn`, `removeDuplicates`, and everything else in database.js outside the named operations.
- Undo and redo themselves: only `addToHistory` and the stacks are modelled. `Command` carries a content edit only.
- Calc.Lex: a substituted cell value and the printed value of a group stay tokens of their own. In the code they are text, and they merge with an adjacent digit, point or value: `=A1 5` with A1 = 3 gives 35 in the code and 3 here, `=A1.5` gives 3.5 and here 3, `=A1B1` with B1 = 4 gives 34 and here 3, and `=2(3)` gives 23 and here 2. This reaches Calc.Calculate, Calc.CalculateExpression, Formula.EvaluateExpression and Formula.Evaluate on such formulas.
- Text.ToUpper, Text.ToLower: only the ASCII letters are mapped. Other letters (`é`, `ß`) are left as they are, and mappings that change length (`ß` to `SS`) are not modelled. This reaches Formula.TextFunction for UPPER and LOWER.
- The validation classes of `handleCellChange`, other DOM updates, toolbars, charts and the clock.

## Findings

| source | as written | input that shows it | evidently intended | confidence | as-written member | corrected member |
|---|---|---|---|---|---|---|
| database.js:101-108 | `switchSheet` tests `this.data.sheets[sheetName]`, which is truthy for names every object inherits | `switchSheet('toString')` on a new workbook returns true and makes `toString` the active sheet, which has no sheet behind it | switch only to a sheet the workbook has | not executed | Workbook.SwitchSheetAsWrittenLosesActive | Workbook.SwitchedTo |
