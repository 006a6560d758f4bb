# NamelessBot whitelist core in Dafny

A Dafny model of the parts of NamelessBot, a Discord bot for a Minecraft server, that decide
what is whitelisted and how commands reach their handlers. There are six modules.

- `Uuid` (uuid.dfy) models `toUUID` and its `insert` helper.
  - `toUUID` takes exactly 32 hexadecimal digits and returns the 8-4-4-4-12 hyphenated form; anything else is an error.
  - The loop inserts a hyphen at each of positions 8, 12, 16 and 20, shifted by the number of hyphens already inserted.
  - `insert` clamps its position as `slice` does.
- `WhitelistStore` (whitelist.dfy) models the `Whitelist` class as a Dafny class with its fields `data`, `changed` and `path`.
  - It covers the `accounts` getter, `add`, `remove`, `filter` and `sync`.
  - It also covers the remove-by-Discord-id of the member-leave event and the first sync of a new store.
  - The getter's key test (`in` on an array) is modelled exactly, including inherited property names. `add` rejects a username only when that list holds it, so the store can hold a username twice.
  - The getter and `add` with the value test they evidently intend are modelled beside the class (see Findings).
- `TileMap` (tilemap.dfy) models `generate_map` without the image work.
  - `>>` is modelled as ToInt32 followed by an arithmetic shift, and is proved to be floor division by 512 on the int32 range.
  - It covers the canvas size, the renderer choice and the nested tile loops in their visiting order, where each fetched tile is placed on the canvas.
  - The fetch of a tile is an input function `present`.
- `Subcommands` (subcommands.dfy) models `useSubcommands` and `newSubcommandHandler`.
  - `newSubcommandHandler` builds a name-to-handler table in list order, where a later handler of the same name wins.
  - The returned handler looks up `${group || ""}/${command}`.
  - When no handler is found, it logs and replies with an internal error.
- `WhitelistCommands` (whitelist_commands.dfy) models the decision logic of `/whitelist`.
  - Escaping: `escapeMarkdown`, and the "." prefix of Bedrock usernames in lookups.
  - Delete replies: the mapping from a store's delete result to the reply text, and the confirmation gate of `/whitelist clear`.
  - `/whitelist list`: its start, its page buttons and its footer.
  - Routing: the declared subcommands map onto the handler list.
- `Decimal` and `Wrappers` (decimal.dfy, wrappers.dfy) are support modules.
  - `Decimal` provides decimal text of numbers and array index strings.
  - `Wrappers` provides `Option` and `Result`.

Facts about the source that the model relies on:

- Usernames are compared exactly, with no case folding, by `accounts` and `add`.
- `WhitelistEntry` has no type field. No task audits guild membership; only the member-leave event removes the entries of a member.
- The command file calls store methods that `Whitelist` does not define: `removeOne`, `removeMany`, `queryOne`, `queryMany`, `queryManyPaginated`, `count`, and a three-argument `add`. The command model therefore takes the answers of those calls as inputs.

## Model

| member | source | states |
|---|---|---|
| Uuid.Insert | src/uuid.ts:33-35 | The result is one longer. The value sits at the position, clamped to the length. Earlier elements keep their index; later ones move up by one. |
| Uuid.InsertThenDelete | src/uuid.ts:33-35 | Taking the inserted element out again gives back the source unchanged. |
| Uuid.InsertStep | src/uuid.ts:49-52 | One loop step inserts at HYPHENS_POSITIONS[k] + k. It adds exactly the next group boundary of the 8-4-4-4-12 layout. |
| Uuid.ToUuid | src/uuid.ts:42-54 | Fails, with the message "Value must be string of 32 hexadecimal numbers", exactly when the input is not 32 hex digits. Otherwise it returns the input in the 8-4-4-4-12 layout. |
| Uuid.CanonicalShape | src/uuid.ts:47-53 | A valid input gives 36 characters. Hyphens sit at indices 8, 13, 18 and 23 and nowhere else. Every other index holds the next input digit in order. |
| Uuid.RoundTrip | src/uuid.ts:42-54 | Removing the hyphens from the result gives back the input exactly, with case preserved. |
| Uuid.ZerosExample | src/uuid.ts:42-54 | Thirty-two zeros become the nil UUID. |
| Uuid.ValidationExamples | src/uuid.ts:43-45 | Thirty-two zeros pass the pattern test and "zz" fails it. |
| WhitelistStore.AccountList | src/whitelist.ts:25-32 | As written, the getter lists at most one username per entry, and no listed username is a property key of the list before it. |
| WhitelistStore.AccountListFromEntries | src/whitelist.ts:25-32 | As written, the getter lists only usernames of entries, at most one per entry. |
| WhitelistStore.AccountListKeepsDuplicates | src/whitelist.ts:28 | As written, when no username is an array property name or an index, every username is listed, duplicates included. |
| WhitelistStore.PropertyNamesNeverListed | src/whitelist.ts:28 | As written, a username such as "length" or "push" is never listed. |
| WhitelistStore.DuplicateListedTwice | src/whitelist.ts:27-30 | As written, two "Steve" entries give ["Steve", "Steve"]. |
| WhitelistStore.IndexNameSkipped | src/whitelist.ts:28 | As written, a username "0" after one listed name is skipped. |
| WhitelistStore.PropertyNameAddedTwice | src/whitelist.ts:46-49 | As written, with a "push" entry present, `accounts` still lacks "push", so the duplicate test of `add` passes it. |
| WhitelistStore.UniqueNamesSpec | src/whitelist.ts:25-32 | The corrected list holds a username if and only if some entry has it, and holds each username once. |
| WhitelistStore.SecondPushAccepted | src/whitelist.ts:28-58 | As written, a new store takes "push" twice: both `add` calls succeed and the data holds two "push" entries. |
| WhitelistStore.AddCorrected | src/whitelist.ts:40-58 | The corrected `add` fails with the no-account message without an id. Otherwise it fails with the duplicate message exactly when some entry has the username. Otherwise it appends the entry stamped `now`. |
| WhitelistStore.AddCorrectedKeepsUnique | src/whitelist.ts:46-58 | The corrected `add` never stores a username twice. |
| WhitelistStore.SelectPartition | src/whitelist.ts:61-69 | The entries kept and those removed together are a permutation of the entries before. |
| WhitelistStore.SelectMembers | src/whitelist.ts:61-72 | An entry is selected if and only if it is in the list and the filter gives the wanted answer for it. |
| WhitelistStore.SelectNoneMatch | src/whitelist.ts:61-69 | When the filter matches nothing, nothing is removed and every entry is kept in order. |
| WhitelistStore.SelectKeepsUniqueUsernames | src/whitelist.ts:61-69 | Removing entries never creates a duplicate username. |
| WhitelistStore.Project | src/whitelist.ts:75-77 | The synced list has exactly one element per entry. |
| WhitelistStore.ProjectAt | src/whitelist.ts:75-77 | The synced list has one {uuid, name} per entry, in entry order. |
| WhitelistStore.Whitelist.constructor | src/whitelist.ts:15-24 | A new store is empty, marked changed, and keeps its path. |
| WhitelistStore.Whitelist.Accounts | src/whitelist.ts:25-32 | Returns the getter's list as written: the usernames in entry order, each skipped when it is a property key (an index or an inherited name) of the list built so far. |
| WhitelistStore.Whitelist.Add | src/whitelist.ts:40-60 | A missing or empty account id fails with the no-account message. Otherwise a username that `accounts` lists as written fails with the duplicate message. Either failure leaves the data and the flag unchanged. Success, exactly when the id is present and the username is not listed, appends the entry stamped `now` and sets the flag. If `accounts` listed no username twice before, it lists none twice after. |
| WhitelistStore.Whitelist.Remove | src/whitelist.ts:61-69 | The data becomes the rejected entries in order, and the accepted ones are returned in order. The flag is set if and only if an entry matched, or it was already set. |
| WhitelistStore.Whitelist.Filter | src/whitelist.ts:70-72 | Returns the matching entries in order; the store is not changed. |
| WhitelistStore.Whitelist.Sync | src/whitelist.ts:73-83 | Without the flag, nothing is written. Otherwise the projection of the data is written, and the flag clears if and only if the write succeeds. The data is not changed. |
| WhitelistStore.FirstSyncWritesEmptyList | src/whitelist.ts:15-24 | The first sync of a new store writes an empty list. The flag stays set only if that write fails. |
| WhitelistStore.MemberLeave | src/events/memberLeave.ts:7-16 | The data becomes the entries of other members, in order, and the member's entries are returned, in order. The flag is set if and only if the member had an entry, or it was already set. Afterwards no entry of the member is left, every other entry remains, and every entry of the member is returned. |
| TileMap.ToInt32 | src/map/map.ts:39-40 | The 32-bit value is in range, congruent to the input modulo 2^32, and equal to it when the input is in range. |
| TileMap.ShiftRightBitsIsFloorDiv | src/map/map.ts:39-40 | An arithmetic shift by n bits is division by 2^n, rounded toward negative infinity. |
| TileMap.ShiftRightIsFloorDiv | src/map/map.ts:39-40 | `x >> n` is ToInt32(x) divided by 2^(n mod 32), rounded down. |
| TileMap.RegionIsFloorDiv | src/map/map.ts:39-40 | `(x >> 4) >> 5` is ToInt32(x) / 512 rounded down. In the int32 range, region r holds blocks 512r to 512r + 511. |
| TileMap.RegionExamples | src/map/map.ts:39-40 | Blocks 0, 511, 512, -1, -512 and -513 fall in regions 0, 0, 1, -1, -1 and -2. |
| TileMap.CanvasDimensions | src/map/map.ts:33-35 | The grid has a tile exactly when the radius is 0 or more. The padding is a sixteenth of the grid's side. The canvas side is 576 pixels per tile. |
| TileMap.Renderer | src/map/map.ts:36 | The renderer is "vanilla" exactly for the world "world", and "basic" otherwise. |
| TileMap.GridOffsetsInRange | src/map/map.ts:43-44 | The loops visit (2r + 1)^2 offsets, all within [-r, r]^2. |
| TileMap.GridOffsetsEmpty | src/map/map.ts:43-44 | The loops visit no offset exactly when the radius is negative. |
| TileMap.GridOffsetsCover | src/map/map.ts:43-44 | Every offset of [-r, r]^2 is visited, at its row-major position. |
| TileMap.GridOffsetsOrdered | src/map/map.ts:43-44 | Visits are in ascending dz, then ascending dx, so no offset is visited twice. |
| TileMap.VisitStep | src/map/map.ts:44-56 | Visiting one offset extends the placed tiles by that offset's tile exactly when its fetch succeeds. |
| TileMap.VisitBounds | src/map/map.ts:42-57 | Before the first offset no tile is placed. After the last row, the tiles of all visited offsets are. |
| TileMap.VisitRow | src/map/map.ts:44-56 | One run of the inner loop over row dz extends the tiles placed before row dz to those placed before row dz + 1. |
| TileMap.PlacedTilesLength | src/map/map.ts:45-55 | At most one tile is placed per visited offset. |
| TileMap.PlacedTilesMembers | src/map/map.ts:45-55 | A tile is drawn if and only if its offset was visited and its fetch succeeded, at the place its own offset gives. |
| TileMap.PlaceTileFrom | src/map/map.ts:46-55 | The key and the corner the loop builds from the values computed before it are those of the tile placed for that offset. |
| TileMap.PlaceTileBounds | src/map/map.ts:46-55 | Column and row are in [0, 2r]. The tile lies inside the padded canvas and shows region (region_x - r + col, region_z - r + row). |
| TileMap.PlacedTilesDisjoint | src/map/map.ts:49-55 | Tiles of two different offsets do not overlap. |
| TileMap.GenerateMap | src/map/map.ts:26-64 | The canvas side is 512(2r + 1) + 64(2r + 1). The background comes first, then one layer per fetched tile in loop order, each placed by its offset. |
| Subcommands.UseSubcommands | src/structures/Command.ts:9-17 | Fails with "Subcommands are only available with SlashCommands!" exactly for a non-slash interaction. Otherwise it gives the group and the subcommand. |
| Subcommands.DispatchKey | src/structures/Command.ts:34 | The key is the group text, a "/", then the subcommand. An absent group reads as "". |
| Subcommands.UngroupedKey | src/structures/Command.ts:34 | An absent or empty group gives "/" followed by the subcommand. |
| Subcommands.DispatchKeyInjective | src/structures/Command.ts:34 | For groups without a "/", equal keys mean equal group and subcommand. |
| Subcommands.HandlerMapLastWins | src/structures/Command.ts:28-31 | The table holds exactly the listed names, each bound to the last handler of that name. |
| Subcommands.NewSubcommandTable | src/structures/Command.ts:28-31 | The loop builds that table. |
| Subcommands.Dispatch | src/structures/Command.ts:32-44 | A non-slash interaction throws. A key missing from the table logs "No handler defined for <key>!" and replies "Internal error, let the developer know.". Otherwise the handler found runs on the same options. |
| Subcommands.DispatchRunsLastNamed | src/structures/Command.ts:25-45 | No handler runs if and only if no listed name equals the key. Otherwise the last handler of that name runs. |
| WhitelistCommands.EscapeMarkdown | src/commands/whitelist.ts:19-21 | The text grows by one character exactly when it contains an underscore. |
| WhitelistCommands.EscapeMarkdownEscapesFirst | src/commands/whitelist.ts:19-21 | Text without an underscore is unchanged. Otherwise a backslash is placed before the first underscore only. |
| WhitelistCommands.EscapeMarkdownLeavesRest | src/commands/whitelist.ts:31-38 | In a joined column whose first part has an underscore, the rest is left unescaped. |
| WhitelistCommands.EscapeMarkdownJoinedColumn | src/commands/whitelist.ts:19-38 | The account column of "a_b" and "_c_" becomes `a\_b\n_c_\n`, which keeps an underscore without a backslash. |
| WhitelistCommands.EscapeMarkdownExample | src/commands/whitelist.ts:19-21 | "a_b_c" becomes `a\_b_c`. |
| WhitelistCommands.SecondUnderscoreUnescaped | src/commands/whitelist.ts:20 | The result for "a_b_c" has an underscore with no backslash before it. |
| WhitelistCommands.EscapeUnderscoresEscapesAll | src/commands/whitelist.ts:19-21 | The corrected escaping puts a backslash right before every underscore. |
| WhitelistCommands.UnescapeEscapeUnderscores | src/commands/whitelist.ts:19-21 | Dropping the added backslashes gives the text back, including the text's own backslashes. |
| WhitelistCommands.EscapeUnderscoresExample | src/commands/whitelist.ts:19-21 | The corrected escaping turns "a_b_c" into `a\_b\_c`. |
| WhitelistCommands.UsernamePattern | src/commands/whitelist.ts:232 | A Bedrock lookup pattern is "." followed by the name. Any other account type uses the name unchanged. |
| WhitelistCommands.ClassifyDelete | src/commands/whitelist.ts:236-245 | Not acknowledged gives retry. An acknowledged positive count gives "removed" with that count. An acknowledged count of zero or less gives "nothing removed". Each holds in both directions. |
| WhitelistCommands.ReplyText | src/commands/whitelist.ts:236-245 | Retry gives the retry text, and nothing removed gives the caller's text. A removal gives "Successfully removed ", decimal digits that read back as the count, and " entries from the whitelist.". |
| WhitelistCommands.RemoveReplyText | src/commands/whitelist.ts:236-262 | The reply is the retry text exactly when the delete was not acknowledged. It is "No entries found with those filters." exactly when it was acknowledged with a count of zero or less. Otherwise it starts with "Successfully removed ". |
| WhitelistCommands.RemoveRepliesDistinct | src/commands/whitelist.ts:236-262 | Different outcomes, including different removed counts, give different reply texts. |
| WhitelistCommands.Clear | src/commands/whitelist.ts:374-388 | The store is asked to delete everything if and only if confirm is true. Otherwise the reply is the confirmation prompt. After a delete, the reply follows the delete result, with "The whitelist is already empty." for nothing. |
| WhitelistCommands.StartList | src/commands/whitelist.ts:305-324 | Zero entries reply "No entries found.". Up to 20 give one page, more give pages with buttons. Each starts at skip 0. |
| WhitelistCommands.NextSkip | src/commands/whitelist.ts:350-353 | "next" moves 20 forward and any other button 20 back. The skip changes if and only if the new skip stays in [0, total), so a valid page stays valid. |
| WhitelistCommands.PressAllKeepsValid | src/commands/whitelist.ts:347-358 | No sequence of button presses leaves the valid pages. |
| WhitelistCommands.NextReachesEveryPage | src/commands/whitelist.ts:350-353 | n presses of "next" move n pages forward while that page exists. |
| WhitelistCommands.CeilDiv | src/commands/whitelist.ts:317 | `Math.ceil(a / b)` is the least q with a <= b * q. |
| WhitelistCommands.PageFooter | src/commands/whitelist.ts:317 | The page number is between 1 and the page count, and the page holds the skip. The page count covers the total. The noun is "entry" exactly for one entry shown. |
| WhitelistCommands.FooterText | src/commands/whitelist.ts:317 | The footer starts with "Page ", the page number, " of " and the page count, and both numbers read back from their digits. |
| Decimal.NatToString | src/commands/whitelist.ts:242 | A number's text is a non-empty run of digits, with no leading zero. |
| Decimal.NatToStringRoundTrip | src/commands/whitelist.ts:242 | Reading the digits back gives the number. |
| WhitelistCommands.ListPager.constructor | src/commands/whitelist.ts:321-342 | The buttons exist only for more than 20 entries, and start on the first page. |
| WhitelistCommands.ListPager.Press | src/commands/whitelist.ts:347-358 | A press moves the skip as NextSkip says and keeps it on a valid page. |
| WhitelistCommands.ListPager.CurrentFooter | src/commands/whitelist.ts:316-318 | The footer of the current page has page number 1 to page count and the stored total. |
| WhitelistCommands.HandlerNamesDistinct | src/commands/whitelist.ts:206-391 | No two handler names in the list are equal. |
| WhitelistCommands.RouteKeyIsHandlerName | src/commands/whitelist.ts:110-391 | Each declared subcommand's lookup key is the name of its own handler. |
| WhitelistCommands.EveryDeclaredRouteHandled | src/commands/whitelist.ts:102-392 | Every declared subcommand dispatches to its own handler: none is missing and none is overridden. |

## Left out

- The account lookup `get_uuid` (src/whitelist.ts:33-39) is a network call. Its answer is the input `lookup` of `Add`.
- `Date.now()` is the input `now`.
- WhitelistStore.Whitelist.Add: a rejected lookup is not modelled. When `get_uuid`'s `fetch` or `res.json()` fails, or `resp.data.player` is missing on success, `add` rejects with that error before either check and leaves `data` and `changed` unchanged; the model's `lookup` is only an absent or present id.
- Console logging is not modelled.
- The whitelist file write is left out: `JSON.stringify` formatting and `fs.writeFile` are not modelled. The write's outcome is the input `writeSucceeds`.
- WhitelistStore.Whitelist.Sync: the write callback is treated as finished within the call. The model therefore does not capture the interleaving in which an `add` lands between the projection and the callback, and the callback then clears `changed`.
- The constructor's ten-second timer loop is not modelled; `FirstSyncWritesEmptyList` models only its first tick.
- Asynchrony and the interleavings of `await` are not modelled.
- The image work of `generate_map` is left out: `fetchImage`, the tile URLs, `sharp` resizing, `mergeImages` and the base64 decoding. The fetch result is the input `present`, and a rejected fetch is not modelled.
- TileMap.GenerateMap: radius, x and z are whole numbers. Fractional or NaN values are not modelled.
- WhitelistStore.IsArrayPropertyName lists the names a current JavaScript engine puts on Array.prototype and Object.prototype. Older or newer engines differ.
- The `$regex` matching with `$options: "i"` of remove/query account is done by the store and is not modelled. Only the pattern string is, and the "." prefix is a regex wildcard there.
- The store calls of the command file (`removeOne`, `removeMany`, `queryOne`, `queryMany`, `queryManyPaginated`, `count`) have no definition in src/whitelist.ts. Their results are inputs: a `DeleteResult` or a total.
- The `/add` handler, `/query account` and `/query user` are left out. They call a three-argument `add` and query methods that `Whitelist` lacks, and their replies are fixed texts.
- WhitelistStore.MemberLeave models the event's `removeMany` by Discord id as `remove` with that filter. The acknowledged/count log line is not modelled.
- The Discord user interface is left out: embeds (`makeEntryEmbed`, `makeEntryListEmbed`), button styling, the collector's 60-second timer and its end handler, `deferReply` and `editReply`.
- Subcommands.Dispatch: the reply call and its possible failure are returned as data, not performed.

## Findings

| source | as written | input that shows it | evidently intended | confidence | as-written member | corrected member |
|---|---|---|---|---|---|---|
| src/whitelist.ts:28 | `entry.minecraft_username in accounts` tests whether the username is a property key of the array, meaning an index or an inherited name such as "push". It does not test whether the username is already listed. | A new store given "push" twice: `accounts` never lists "push", so both `add` calls succeed and two "push" entries are stored. Two "Steve" entries list "Steve" twice (a state `add` never produces: only property-key names such as "push" or "0" can be stored twice). | Test the value (`includes`). Each username is then listed once, and `add` rejects every username already stored. | high; not executed | WhitelistStore.SecondPushAccepted | WhitelistStore.AddCorrectedKeepsUnique |
| src/commands/whitelist.ts:20 | `text.replace("_", "\\_")` with a string pattern escapes only the first underscore, including in the joined account column. | The account column of "a_b" and "_c_" is "a_b\n_c_\n". It becomes `a\_b\n_c_\n`, where `_c_` still renders in italics. | Escape every underscore (`replaceAll`). | medium; not executed | WhitelistCommands.EscapeMarkdownJoinedColumn | WhitelistCommands.EscapeUnderscoresEscapesAll |

The store class follows the source as written, so `WhitelistStore.Whitelist.Add` accepts a second "push". The corrected getter `WhitelistStore.UniqueNames` and the corrected `add`, `WhitelistStore.AddCorrected`, are modelled beside the class. `WhitelistStore.UniqueNamesSpec` and `WhitelistStore.AddCorrectedKeepsUnique` prove that, corrected, each username is listed once and no username is stored twice.
