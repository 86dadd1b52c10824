# ILHelper and the profession table, in Dafny

This project models two pieces of the Stardew Valley professions mod.

**The `ILHelper` instruction-stream editor.** Harmony transpilers use it to
rewrite the IL of a game method. Two versions are modelled:

- the older `Common/Harmony/ILHelper.cs`, which is attached to one method after
  another and keeps a copy buffer;
- the newer `ImmersiveValley/Common/Harmony/ILHelper.cs`, which is built once
  per method, indexes the method's locals, and offers label-aware insertion,
  appending, copies handed back to the caller and a pattern-driven `ForEach`.

An editor session holds the instruction list and a stack of cursor
positions; the top of the stack is `CurrentIndex`. Each fluent call is a pure
function from a session to a `Step`. A `Step` is either `Done(session)` or
`Threw(error, session)`. In both cases it keeps the state the call left behind:
`Return` over a too-short stack pops everything and only then throws, and this
is recorded.

**The profession table of `AwesomeProfessions/Framework/Utility/Professions.cs`.**
This covers the two-way `IndexByName` map with its `IndexOf` and `NameOf`
lookups, and the three-tier quality functions of the Ecologist and Gemologist
professions.

Files:

- `outcomes.dfy` (`Outcomes`): `Option`, `Result` and the error kinds.
- `instructions.dfy` (`Instructions`): opcodes, operands, labels and
  instructions. It also holds template matching, the forward pattern search,
  the backward search by reversal, and an independent list of all
  occurrences (`MatchesFrom`) used as the reference for the searches and
  for `ForEach`.
- `editor.dfy` (`Editor`): the operations both versions share. These are the
  searches (with the not-found behaviour both versions intend),
  navigation, insertion, removal, replacement, labels, opcode and operand
  access, `Clear` and `Flush`.
- `legacy_editor.dfy` (`LegacyEditor`): `Attach`, the backward searches as
  written, the copy buffer, `RemoveUntilLabel`, `AdvanceToLast`, the
  integer-constant load and the canned profession-check and dice-roll blocks.
- `modern_editor.dfy` (`ModernEditor`): the constructor and its table of
  locals, the backward searches as written, `InsertWithLabels`,
  `AddInstructions`/`AddWithLabels` (as written and corrected),
  `GetInstructions*`, `RemoveLabels`, `StripLabels`, `TryMoveNext` and
  `ForEach`.
- `professions.dfy` (`Professions`): the table, its lookups, their
  bijection and round trips, and the quality tiers.

Pure aliases are modelled by their target:

- `AdvanceUntil` is `Editor.FindNext`.
- `RetreatUntil` is `FindPrevious` (the version-specific one).
- `AdvanceUntilLabel` is `Editor.FindLabel` with `fromCurrent`.
- `ReturnToFirst` is `Editor.GoTo` with index 0.
- The legacy `ReplaceWith` is `Editor.Replace` without `preserveLabels`.
- The legacy `StripLabels()` and the newer `RemoveLabels()` are `Editor.ClearLabels`.

## Model

| member | source | states |
|---|---|---|
| Instructions.IndexOf | ImmersiveValley/Common/Harmony/ILHelper.cs:73-80 | The pattern search every `Find*` relies on. It returns the least index at or after `start` where the whole pattern occurs, or -1 exactly when the pattern occurs nowhere from `start` on. |
| Instructions.IndexOfLabel | Common/Harmony/ILHelper.cs:154-165 | The label search returns the least index at or after `start` whose instruction carries the label, or -1 when none does. |
| Instructions.ReversedOccurrence | ImmersiveValley/Common/Harmony/ILHelper.cs:84-94 | The reversal trick is sound both ways: an occurrence of the reversed pattern at `j` in the reversed list is an occurrence of the pattern at `Count - j - pattern.Length`, and conversely. |
| Instructions.LastIndexOf | ImmersiveValley/Common/Harmony/ILHelper.cs:109-121 | Backward search by reversal returns the last occurrence that ends at or before the bound, or -1 exactly when there is none. |
| Instructions.Wrap32 | Common/Harmony/ILHelper.cs:347-355 | C# `int` wrap-around: the result is a 32-bit value congruent to the input, and equal to it when it already fits. |
| Instructions.MatchesFromExact | ImmersiveValley/Common/Harmony/ILHelper.cs:366-370 | The reference list of occurrences holds exactly the occurrences at or after `start`, each once, in strictly increasing order. |
| Instructions.MatchesFromFirst | ImmersiveValley/Common/Harmony/ILHelper.cs:408-415 | Jumping to the first occurrence found by the search loses none of them: the occurrences are that one followed by those after it. |
| Editor.CopyBlock | Common/Harmony/ILHelper.cs:584-588 | A buffer copy keeps the opcode and operand of every instruction, and drops every label exactly when stripping is asked for. |
| Editor.FindFirst | Common/Harmony/ILHelper.cs:87-98 | Succeeds iff the pattern occurs. On success it pushes the first occurrence and changes nothing else; otherwise it throws and leaves the session alone. |
| Editor.FindNext | ImmersiveValley/Common/Harmony/ILHelper.cs:98-105 | Succeeds iff the pattern occurs after the cursor, pushing the first such occurrence. Without a cursor it throws. |
| Editor.FindLast | ImmersiveValley/Common/Harmony/ILHelper.cs:84-94 | The intended `FindLast`: it succeeds iff the pattern occurs and pushes its last occurrence; otherwise it throws `PatternNotFound`. |
| Editor.FindPrevious | ImmersiveValley/Common/Harmony/ILHelper.cs:109-121 | The intended `FindPrevious`: it succeeds iff an occurrence ends before the cursor, and pushes the nearest one. |
| Editor.FindLabel | ImmersiveValley/Common/Harmony/ILHelper.cs:126-133 | Succeeds iff some instruction carries the label, after the cursor only when `fromCurrentIndex` is set. It pushes the first one, and no instruction before it in the searched range carries the label. |
| Editor.Advance | Common/Harmony/ILHelper.cs:190-197 | Succeeds iff `CurrentIndex + steps` addresses an instruction, and then pushes it. A failure leaves the session unchanged. |
| Editor.Retreat | Common/Harmony/ILHelper.cs:215-218 | `Advance(-steps)`: succeeds iff `CurrentIndex - steps` addresses an instruction. |
| Editor.GoTo | Common/Harmony/ILHelper.cs:237-245 | Succeeds iff the index addresses an instruction, and pushes it. Otherwise it throws out-of-range (or empty-list) and leaves the session unchanged. |
| Editor.Return | ImmersiveValley/Common/Harmony/ILHelper.cs:344-348 | Pops `count` entries when the stack holds that many. Otherwise it throws on an empty stack after having popped all of it. |
| Editor.Insert | Common/Harmony/ILHelper.cs:269-274 | Splices the block in before the cursor and pushes the index of the displaced instruction. Older entries are not shifted. The prefix, the block and the shifted suffix are stated exactly. |
| Editor.Remove | ImmersiveValley/Common/Harmony/ILHelper.cs:235-241 | Succeeds iff the removed range stops short of the last instruction. The remaining instructions are those before the cursor and those after the range, and the last instruction survives. |
| Editor.RemoveUntil | ImmersiveValley/Common/Harmony/ILHelper.cs:245-252 | Succeeds iff the pattern occurs after the cursor. It deletes from the cursor through the first instruction of the first such occurrence and leaves the stack as it was. |
| Editor.Replace | ImmersiveValley/Common/Harmony/ILHelper.cs:256-263 | Only the cursor slot changes. It gets the new opcode and operand, and keeps its own labels exactly when `preserveLabels` is set. Stack, buffer and locals are unchanged. |
| Editor.AddLabels | ImmersiveValley/Common/Harmony/ILHelper.cs:267-271 | Only the cursor slot changes. Its labels become the old ones followed by the added ones, in order. Stack, buffer and locals are unchanged. |
| Editor.SetLabels | ImmersiveValley/Common/Harmony/ILHelper.cs:288-292 | Only the labels of the cursor slot change, to exactly the given ones. Stack, buffer and locals are unchanged. |
| Editor.ClearLabels | ImmersiveValley/Common/Harmony/ILHelper.cs:274-278 | Only the cursor slot changes, and afterwards it carries no label. Stack, buffer and locals are unchanged. |
| Editor.GetLabels | ImmersiveValley/Common/Harmony/ILHelper.cs:296-300 | Succeeds iff the cursor addresses an instruction. It returns that instruction's labels exactly, in order and with repeats. |
| Editor.SetOpcode | ImmersiveValley/Common/Harmony/ILHelper.cs:312-324 | Only the opcode of the cursor slot changes, and `GetOpCode` then reads back the opcode that was set. Stack, buffer and locals are unchanged. |
| Editor.SetOperand | ImmersiveValley/Common/Harmony/ILHelper.cs:328-340 | Only the operand of the cursor slot changes, and `GetOperand` then reads back the operand that was set. Stack, buffer and locals are unchanged. |
| Editor.Clear | ImmersiveValley/Common/Harmony/ILHelper.cs:373-378 | Empties both the list and the stack and leaves no cursor. |
| Editor.Flush | ImmersiveValley/Common/Harmony/ILHelper.cs:381-386 | Hands back the list as it was and leaves the session cleared. |
| Editor.NavigationReturns | ImmersiveValley/Common/Harmony/ILHelper.cs:344-348 | Every successful search or move is undone by `Return(1)`. |
| Editor.InsertRetreatRemove | Common/Harmony/ILHelper.cs:359-365 | Inserting a block, stepping back over it and removing it restores the instruction list. |
| LegacyEditor.Attach | Common/Harmony/ILHelper.cs:64-76 | Takes the new list and resets the stack to exactly `[0]`. The copy buffer of the previous method survives. |
| LegacyEditor.AttachFlush | Common/Harmony/ILHelper.cs:544-550 | Flushing right after attaching hands back the attached list and leaves the list and stack empty. |
| LegacyEditor.FindLastAsWritten | Common/Harmony/ILHelper.cs:102-116 | The legacy `FindLast` only pushes or throws pattern-not-found. When the reversed pattern does not occur it pushes `Count` instead of throwing. |
| LegacyEditor.FindLastAsWrittenFindsReversed | Common/Harmony/ILHelper.cs:102-116 | When the reversed pattern occurs, the legacy `FindLast` lands on the last instruction of its last occurrence. |
| LegacyEditor.FindLastSingle | Common/Harmony/ILHelper.cs:102-116 | For a one-instruction pattern that occurs, the legacy `FindLast` agrees with the intended one. |
| LegacyEditor.FindLastMissingPushesCount | Common/Harmony/ILHelper.cs:102-116 | Concrete input on which the legacy `FindLast` pushes an index past the end while the intended one throws. |
| LegacyEditor.FindPreviousAsWritten | Common/Harmony/ILHelper.cs:135-149 | The legacy `FindPrevious` finds the nearest reversed-pattern occurrence ending at or before the cursor itself. When there is none it pushes `Count`. |
| LegacyEditor.FindPreviousMissingPushesCount | Common/Harmony/ILHelper.cs:135-149 | Concrete input on which the legacy `FindPrevious` pushes `Count` while the intended one throws. |
| LegacyEditor.ToBuffer | Common/Harmony/ILHelper.cs:397-406 | The intended copy. It succeeds iff the range fits, leaves the list alone, buffers a copy of the range (stripped when asked), and pushes the end of the range only with `advance`. |
| LegacyEditor.ToBufferAsWritten | Common/Harmony/ILHelper.cs:397-406 | As written, the buffer and the copied range are the same instruction objects: afterwards the list's range equals the (possibly stripped) buffer. |
| LegacyEditor.ToBufferStripsSource | Common/Harmony/ILHelper.cs:584-588 | Concrete input on which copying with `stripLabels` removes a label from the list itself. |
| LegacyEditor.ToBufferUntil | Common/Harmony/ILHelper.cs:410-438 | The intended copy. Succeeds iff the pattern occurs after the cursor. It buffers a copy from the cursor through the first instruction of the first occurrence, leaves the list alone, and pushes past the range only with `advance`. |
| LegacyEditor.ToBufferUntilAsWritten | Common/Harmony/ILHelper.cs:425-438 | With the shallow `Clone`, the copied range of the list becomes the buffer's contents, so it is stripped too. The rest of the list is unchanged. |
| LegacyEditor.ToBufferUntilAsWrittenAgrees | Common/Harmony/ILHelper.cs:425-438 | The as-written copy succeeds and fails exactly when the intended one does, with the same buffer and stack. Without `stripLabels` the two are equal. |
| LegacyEditor.ToBufferUntilStripsSource | Common/Harmony/ILHelper.cs:425-438 | Concrete input on which `stripLabels` removes a label from the list itself. |
| LegacyEditor.InsertBuffer | Common/Harmony/ILHelper.cs:277-282 | Without a buffer it throws and nothing changes. Otherwise the list becomes prefix, buffer, rest; the index past the buffer is pushed, so the cursor stays on its instruction; buffer and older stack entries are unchanged. |
| LegacyEditor.InsertBufferRange | Common/Harmony/ILHelper.cs:286-290 | Succeeds iff the sub-range lies inside the buffer and the cursor is an insertion point. The list becomes prefix, slice, rest, and the cursor ends just after the slice. |
| LegacyEditor.InsertWholeBufferRange | Common/Harmony/ILHelper.cs:277-290 | Inserting the slice that spans the whole buffer is the same as inserting the buffer. |
| LegacyEditor.CopyThenInsertDuplicates | Common/Harmony/ILHelper.cs:397-406 | Copying a range with `advance` and inserting the buffer duplicates the range in place. |
| LegacyEditor.RemoveUntilLabel | Common/Harmony/ILHelper.cs:382-391 | Succeeds iff an instruction after the cursor carries the label. It deletes from the cursor through the first such instruction. |
| LegacyEditor.AdvanceToLast | Common/Harmony/ILHelper.cs:254-257 | Succeeds iff the list is non-empty, pushing `LastIndex`. |
| LegacyEditor.LoadConstantInt | Common/Harmony/ILHelper.cs:591-606 | The operand-free forms are chosen exactly for 0..8. The emitted instruction loads the intended value exactly when it fits a signed byte. |
| LegacyEditor.LoadConstantIntTooWide | Common/Harmony/ILHelper.cs:591-606 | Concrete input (200) for which the emitted short form cannot carry the value. |
| LegacyEditor.LoadConstantIntFixed | Common/Harmony/ILHelper.cs:591-606 | The corrected load pushes the intended value for every 32-bit integer and agrees with the original on signed bytes. |
| LegacyEditor.BranchOpcode | Common/Harmony/ILHelper.cs:297-317 | The branch is taken on true exactly when `useBrtrue` is set and is the long form exactly when `useLongFormBranch` is set. |
| LegacyEditor.FindProfessionCheck | Common/Harmony/ILHelper.cs:170-186 | Succeeds iff the `professions.Contains(which)` sequence occurs (after the cursor with `fromCurrentIndex`). It pushes the FIRST such occurrence in the searched range. |
| LegacyEditor.InsertProfessionCheckForLocalPlayer | Common/Harmony/ILHelper.cs:297-317 | The list becomes prefix, the five-instruction block, rest: the player getter, the test `FindProfessionCheck` searches for, and the chosen branch. The cursor stays on its instruction and nothing else changes. |
| LegacyEditor.InsertProfessionCheckForPlayerOnStack | Common/Harmony/ILHelper.cs:319-333 | The list becomes prefix, the four-instruction test and branch, rest. The test is the one `FindProfessionCheck` searches for, and the cursor stays on its instruction. |
| LegacyEditor.InsertDiceRoll | Common/Harmony/ILHelper.cs:336-344 | The list becomes prefix, `ldsfld Game1.random`, `callvirt NextDouble`, rest. The cursor stays on its instruction and nothing else changes. |
| LegacyEditor.InsertDiceRollRange | Common/Harmony/ILHelper.cs:347-355 | The list becomes prefix, the four-instruction `Game1.random.Next(min, max + 1)` call, rest. The first bound loads `min`, and the second loads `max + 1` whenever the short form can hold it. `max + 1` wraps to `int.MinValue` at `int.MaxValue`. |
| LegacyEditor.DiceRollsUndone | Common/Harmony/ILHelper.cs:336-355 | Both dice rolls are undone by retreating over the inserted block and removing it. |
| ModernEditor.BuildLocals | ImmersiveValley/Common/Harmony/ILHelper.cs:30-34 | The table of locals is built iff no local access has a foreign operand (cast fails) and no two distinct slots share an index (duplicate key). It then maps every referenced slot's index to it, and holds nothing else. |
| ModernEditor.Create | ImmersiveValley/Common/Harmony/ILHelper.cs:26-37 | Construction succeeds iff the locals table can be built. The session then holds the list as given, the stack `[0]` and that table, and flushing it returns the list. |
| ModernEditor.FindLastAsWritten | ImmersiveValley/Common/Harmony/ILHelper.cs:84-94 | Agrees with the intended `FindLast` whenever the pattern occurs. When it does not, it throws only if `Count + 1 - pattern.Length` is negative and otherwise pushes that index. |
| ModernEditor.FindLastMissingPushesInside | ImmersiveValley/Common/Harmony/ILHelper.cs:84-94 | Concrete two-instruction input on which the newer `FindLast` pushes 1 for an absent pattern. |
| ModernEditor.FindPreviousAsWritten | ImmersiveValley/Common/Harmony/ILHelper.cs:109-121 | Agrees with the intended `FindPrevious` whenever an occurrence ends before the cursor. When none does, it throws only for patterns of at most one instruction. |
| ModernEditor.FindPreviousMissingPushesInside | ImmersiveValley/Common/Harmony/ILHelper.cs:109-121 | Concrete input on which the newer `FindPrevious` pushes 1 for an absent pattern. |
| ModernEditor.InsertWithLabels | ImmersiveValley/Common/Harmony/ILHelper.cs:172-178 | An empty block throws first. Otherwise the list becomes prefix, the block with the labels added to its first instruction, rest. The cursor stays on its instruction, and buffer and locals are unchanged. |
| ModernEditor.AddInstructionsAsWritten | ImmersiveValley/Common/Harmony/ILHelper.cs:183-188 | As written, appending pushes the OLD last index, so the cursor addresses the instruction before the block. |
| ModernEditor.AddInstructionsMissesBlock | ImmersiveValley/Common/Harmony/ILHelper.cs:183-188 | Concrete input on which the cursor after `AddInstructions` is not on the appended instruction. |
| ModernEditor.AddInstructions | ImmersiveValley/Common/Harmony/ILHelper.cs:183-188 | As documented: the block is appended, the old list is a prefix, and the pushed index addresses the first appended instruction. |
| ModernEditor.AddWithLabels | ImmersiveValley/Common/Harmony/ILHelper.cs:193-199 | As documented: an empty block throws. Otherwise the block is appended with the labels added to its first instruction, and the cursor is on that instruction. Nothing else changes: the older stack entries, the buffer and the locals are kept. |
| ModernEditor.AddWithLabelsAsWritten | ImmersiveValley/Common/Harmony/ILHelper.cs:193-199 | As written, the labelled block is appended but the pushed index is the OLD last index, so the cursor is on the instruction before the block. The session is otherwise exactly the old one with the labelled block appended. |
| ModernEditor.AddWithLabelsMissesBlock | ImmersiveValley/Common/Harmony/ILHelper.cs:193-199 | Concrete input on which the cursor after `AddWithLabels` is not on the labelled instruction. |
| ModernEditor.AddWithoutLabels | ImmersiveValley/Common/Harmony/ILHelper.cs:183-199 | With no labels, each version of `AddWithLabels` is the same version of `AddInstructions` on a non-empty block. |
| ModernEditor.GetInstructions | ImmersiveValley/Common/Harmony/ILHelper.cs:204-212 | Succeeds iff the range fits. It hands back a copy of the `count` instructions at the cursor (stripped when asked) and pushes past them only with `advance`. |
| ModernEditor.GetInstructionsUntil | ImmersiveValley/Common/Harmony/ILHelper.cs:218-230 | Succeeds iff the pattern occurs after the cursor. It hands back a copy through the first instruction of the first occurrence, and pushes past it only with `advance`. |
| ModernEditor.RemoveFirst | ImmersiveValley/Common/Harmony/ILHelper.cs:281-285 | `List.Remove`: the labels lose exactly one copy of the label if they held one, and are unchanged otherwise. |
| ModernEditor.RemoveEach | ImmersiveValley/Common/Harmony/ILHelper.cs:281-285 | Removing each listed label in turn is multiset difference. |
| ModernEditor.RemoveLabelsListed | ImmersiveValley/Common/Harmony/ILHelper.cs:281-285 | With nothing listed nothing happens. Otherwise only the cursor slot's labels change, losing the listed ones as a multiset. Stack, buffer and locals are unchanged. |
| ModernEditor.AddThenRemoveLabels | ImmersiveValley/Common/Harmony/ILHelper.cs:267-285 | Adding labels and then removing them restores the slot's labels as a multiset. |
| ModernEditor.StripLabels | ImmersiveValley/Common/Harmony/ILHelper.cs:303-308 | Hands back exactly the labels of the cursor slot and clears them. Only that slot changes; stack, buffer and locals are unchanged. |
| ModernEditor.StripThenInsertMovesLabels | ImmersiveValley/Common/Harmony/ILHelper.cs:172-178 | Stripping the cursor's labels and inserting a block with them moves the labels onto the block's first instruction. The cursor stays on the old instruction, now without labels. |
| ModernEditor.StripThenAddLabels | ImmersiveValley/Common/Harmony/ILHelper.cs:267-308 | Stripping the labels and adding the stripped ones back restores the session exactly. |
| ModernEditor.TryMoveNext | ImmersiveValley/Common/Harmony/ILHelper.cs:408-415 | Answers whether the pattern occurs after the cursor. If so it moves like `FindNext`, and otherwise it changes nothing. |
| ModernEditor.ForEach | ImmersiveValley/Common/Harmony/ILHelper.cs:366-370 | When the loop ends normally, no occurrence of the pattern remains after the final cursor. Without a cursor it throws. |
| ModernEditor.ForEachVisitsEveryMatch | ImmersiveValley/Common/Harmony/ILHelper.cs:366-370 | With an action that does nothing, `ForEach` visits every occurrence after the cursor once, in order, pushing each one. |
| Professions.Forward | AwesomeProfessions/Framework/Utility/Professions.cs:80-84 | The forward lookup succeeds iff some row has the name, and the index it returns is on such a row. |
| Professions.Backward | AwesomeProfessions/Framework/Utility/Professions.cs:88-92 | The reverse lookup succeeds iff some row has the index, and the name it returns is on such a row. |
| Professions.IndexOf | AwesomeProfessions/Framework/Utility/Professions.cs:80-84 | Succeeds iff the name is in the table, returning an index paired with it. Otherwise it is the unknown-name error for that name. |
| Professions.NameOf | AwesomeProfessions/Framework/Utility/Professions.cs:88-92 | Succeeds iff the index is in the table, returning a name paired with it. Otherwise it is the out-of-range error for that index. |
| Professions.TableIsBijection | AwesomeProfessions/Framework/Utility/Professions.cs:26-74 | The table has 30 rows, no name or index repeats, and its indices are exactly 0 to 29. |
| Professions.LookupsInvert | AwesomeProfessions/Framework/Utility/Professions.cs:80-92 | In any table with unique names and indices, each lookup undoes the other. |
| Professions.NameOfIndexOf | AwesomeProfessions/Framework/Utility/Professions.cs:80-92 | `NameOf(IndexOf(name)) == name` for every known profession name. |
| Professions.IndexOfNameOf | AwesomeProfessions/Framework/Utility/Professions.cs:80-92 | `NameOf` succeeds exactly on 0..29, and `IndexOf(NameOf(i)) == i` there. |
| Professions.SkillBlocks | AwesomeProfessions/Framework/Utility/Professions.cs:26-74 | Each skill's block of six rows holds exactly the indices of that skill's six-id block, so `index / 6` is the skill. |
| Professions.TierQuality | AwesomeProfessions/Framework/Utility/Professions.cs:152-171 | Best quality iff the counter has reached the threshold. High iff it is below the threshold but at least half of it (rounded down). Medium otherwise. The Ecologist forage quality and the Gemologist mineral quality both follow this rule. |
| Professions.TierIsFunctional | AwesomeProfessions/Framework/Utility/Professions.cs:152-171 | At most one quality level fits the three tiers for a given counter and threshold. |
| Professions.QualityMonotone | AwesomeProfessions/Framework/Utility/Professions.cs:152-171 | Quality never drops as the counter grows and never rises as the threshold grows. |

## Left out

- Logging (`Trace`, `Warn`, `Error`, the log callback), `Export`, `Snitch` and the exception messages are left out. Exceptions are kept as error kinds only, and several .NET exception types share one kind.
- The target method (`MethodBase`, `Original`) and the operands' reflection objects (`FieldInfo`, `MethodInfo`) are opaque identities in the model.
- The legacy editor before its first `Attach` (a null instruction list) is not modelled; every session has a list.
- The `IndexOf(pattern, start)` list extension that the searches call is not part of this model. It is modelled from its uses as the least start index of a whole-pattern match. A template instruction matches when opcodes are equal and, if the template has an operand, operands are equal; labels are ignored.
- The empty pattern matches everywhere under that reading; the source gives it no separate treatment.
- Instructions are values. In the source, `CodeInstruction` objects are shared between the list, the buffer, the arrays handed to callers and the caller's own arrays. The model states the sharing effect of the legacy buffer's label stripping (`LegacyEditor.ToBufferAsWritten`, `LegacyEditor.ToBufferUntilAsWritten`) and otherwise treats copies as independent.
- The label `IndexOf(label, start)` list extension that the legacy `FindLabel` calls (Common/Harmony/ILHelper.cs:156) is not part of this model. It is modelled from its use as the least index at or after `start` whose instruction carries the label, or -1.
- The legacy backward searches call `Clone()` on the list and then `Reverse()` on the copy (Common/Harmony/ILHelper.cs:104-105, 137-138). The `Clone` extension in Common/Extensions/CollectionExtensions.cs:34 returns an `ICollection<T>`, which has no `Reverse()` of its own. The model reads the calls as a `List<T>` copy reversed in place, as the code around them expects. If `Reverse()` were instead LINQ's non-mutating one, the search would run over the unreversed list; the first two Findings rows assume the in-place reading.
- The legacy `ToBuffer` and `ToBufferUntil` store the `Clone` of a `GetRange` in the buffer field (Common/Harmony/ILHelper.cs:399, 416, 431). With that `ICollection<T>`-returning `Clone` the assignment would not type-check, so the model assumes a `List<T>`-returning `Clone` that, like the one shown, copies references to the same instruction objects. The `ToBuffer` and `ToBufferUntil` Findings rows rest on that.
- The `Clone` the newer editor uses is not part of this model. Its `GetInstructions*` copies are treated as independent of the list.
- `AddWithLabels` and `InsertWithLabels` add the labels to the caller's first instruction object in the source; in the model only the inserted copy carries them.
- 32-bit overflow of `CurrentIndex + steps` and `CurrentIndex + count` in `Advance` and `Remove` is not modelled; it changes only which exception is raised, for indices near `int.MaxValue`.
- Label uniqueness across the list is not enforced, as in the source.
- Game-state formulas of `Professions.cs` other than the two quality tiers are left out: floating point, farmer and animal state, and configuration other than the two thresholds.
- Professions.TierQuality: the counter read from mod data and the configured threshold are parameters; their `uint` type is modelled as `nat`.
- Professions.IndexOf: `BiMap` is a pair of dictionaries; the model scans the table in order and returns the first matching row. `TableIsBijection` shows there is only one.
- ModernEditor.ForEach: it requires every action to keep a cursor and never move it further from the end of the list (`Tame`). That is a sufficient condition for the loop to end, not a necessary one: with other actions the source may loop forever (for example one that retreats and inserts on every visit), and a Dafny function must terminate.
- ModernEditor.ForEach: the contract does not say what an arbitrary action did; `ForEachVisitsEveryMatch` pins the visits down for the action that does nothing.
- Editor.GetOpcode and Editor.GetOperand: their contracts state only when they succeed. What they read is pinned down by the round trips in `SetOpcode` and `SetOperand`.

## Findings

| source | as written | input that shows it | evidently intended | confidence | as-written member | corrected member |
|---|---|---|---|---|---|---|
| Common/Harmony/ILHelper.cs:102-116 | `FindLast` searches the un-reversed pattern in the reversed list. Its guard `index < 0` cannot fire, so an absent pattern pushes `Count`. | list `[a]`, pattern `[b]`: pushes 1 | throw pattern-not-found; find the last occurrence of the pattern itself | high, not executed | LegacyEditor.FindLastAsWritten | Editor.FindLast |
| Common/Harmony/ILHelper.cs:135-149 | `FindPrevious` has the same mapping, and an absent pattern pushes `Count`. | list `[a, a]`, cursor 1, pattern `[b]`: pushes 2 | throw pattern-not-found | high, not executed | LegacyEditor.FindPreviousAsWritten | Editor.FindPrevious |
| ImmersiveValley/Common/Harmony/ILHelper.cs:84-94 | An absent pattern gives `Count + 1 - pattern.Length`, which the guard `index < 0` lets through for patterns no longer than `Count + 1`. | list `[a, b]`, pattern `[c, d]`: pushes 1 | throw pattern-not-found | high, not executed | ModernEditor.FindLastAsWritten | Editor.FindLast |
| ImmersiveValley/Common/Harmony/ILHelper.cs:109-121 | An absent pattern gives `Count + 1 - pattern.Length`, which the guard `index >= Count` lets through for patterns of two or more instructions. | list `[a, b]`, cursor 1, pattern `[c, d]`: pushes 1 | throw pattern-not-found | high, not executed | ModernEditor.FindPreviousAsWritten | Editor.FindPrevious |
| ImmersiveValley/Common/Harmony/ILHelper.cs:183-188 | Pushes `LastIndex - instructions.Length`, the old last index. | list `[a]`, append `[b]`: cursor on `a` | cursor on the first appended instruction, as documented | high, not executed | ModernEditor.AddInstructionsAsWritten | ModernEditor.AddInstructions |
| Common/Harmony/ILHelper.cs:397-406 | The buffer is a shallow `Clone`, so `stripLabels` also clears the labels of the copied range in the list. | one labelled instruction, `ToBuffer(1, stripLabels: true)`: the list loses the label | strip only the buffer's copies | medium (depends on `CodeInstruction` being a reference type), not executed | LegacyEditor.ToBufferAsWritten | LegacyEditor.ToBuffer |
| ImmersiveValley/Common/Harmony/ILHelper.cs:193-199 | `AddWithLabels` pushes `LastIndex - instructions.Length`, the old last index, like `AddInstructions`. | list `[a]`, `AddWithLabels([l], [b])`: cursor on `a` | cursor on the first appended instruction, as documented | high, not executed | ModernEditor.AddWithLabelsAsWritten | ModernEditor.AddWithLabels |
| Common/Harmony/ILHelper.cs:425-438 | `ToBufferUntil` copies with the same shallow `Clone`, so `stripLabels` also clears the labels of the copied range in the list. | list `[a(l), b]`, cursor 0, pattern `[b]`, stripLabels: the list's `a` loses `l` | strip only the buffer's copies | medium (depends on `CodeInstruction` being a reference type), not executed | LegacyEditor.ToBufferUntilAsWritten | LegacyEditor.ToBufferUntil |
| Common/Harmony/ILHelper.cs:591-606 | Every constant other than 0..8 is emitted as `ldc.i4.s`, whose operand is one signed byte. | 200 | `ldc.i4` outside -128..127 | medium, not executed | LegacyEditor.LoadConstantInt | LegacyEditor.LoadConstantIntFixed |
