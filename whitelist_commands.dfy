/** The decision logic of the /whitelist command (src/commands/whitelist.ts): Markdown
    escaping, the Bedrock username pattern, the replies to a delete, the /clear confirmation,
    the /list pages and the routing of its subcommands. */
module WhitelistCommands {
  import opened Wrappers
  import opened Decimal
  import Subcommands

  // ---------------------------------------------------------------------------------------
  // escapeMarkdown
  // ---------------------------------------------------------------------------------------

  /** The index of the first `c` in `s`, or |s| when there is none. */
  function FirstIndex(s: string, c: char): (k: nat)
    ensures k <= |s|
    ensures k < |s| ==> s[k] == c
    ensures forall i | 0 <= i < k :: s[i] != c
  {
    if s == [] then 0 else if s[0] == c then 0 else 1 + FirstIndex(s[1..], c)
  }

  /** `text.replace("_", "\\_")`: a string pattern, so only the first underscore gets a
      backslash before it. */
  function EscapeMarkdown(text: string): (r: string)
    ensures |r| == |text| + (if '_' in text then 1 else 0)
  {
    if text == [] then []
    else if text[0] == '_' then "\\" + text
    else
      assert text == [text[0]] + text[1..];
      [text[0]] + EscapeMarkdown(text[1..])
  }

  /** Text without an underscore is left as it is; otherwise a backslash goes in front of the
      first underscore and everything else keeps its place. */
  lemma {:induction false} EscapeMarkdownEscapesFirst(text: string)
    ensures '_' !in text ==> EscapeMarkdown(text) == text
    ensures '_' in text ==> var k := FirstIndex(text, '_');
              EscapeMarkdown(text) == text[..k] + "\\" + text[k..]
  {
    if text != [] && text[0] != '_' {
      var t := text[1..];
      assert text == [text[0]] + t;
      EscapeMarkdownEscapesFirst(t);
      if '_' in t {
        var k := FirstIndex(t, '_');
        assert FirstIndex(text, '_') == k + 1;
        assert text[..k + 1] == [text[0]] + t[..k];
        assert text[k + 1..] == t[k..];
      }
    }
  }

  /** In a joined list only the first underscore is escaped: once the first part holds one,
      the rest is left as it is. */
  lemma {:induction false} EscapeMarkdownLeavesRest(a: string, b: string)
    requires '_' in a
    ensures EscapeMarkdown(a + b) == EscapeMarkdown(a) + b
  {
    assert (a + b)[0] == a[0];
    if a[0] != '_' {
      assert a == [a[0]] + a[1..];
      assert (a + b)[1..] == a[1..] + b;
      EscapeMarkdownLeavesRest(a[1..], b);
    }
  }

  lemma EscapeMarkdownExample()
    ensures EscapeMarkdown("a_b_c") == "a\\_b_c"
  {
    EscapeMarkdownEscapesFirst("a_b_c");
    assert FirstIndex("a_b_c", '_') == 1 by {
      assert "a_b_c"[1..] == "_b_c";
    }
  }

  /** Of the two underscores of "a_b_c", the second stays without a backslash. */
  lemma SecondUnderscoreUnescaped()
    ensures !UnderscoresEscaped(EscapeMarkdown("a_b_c"))
  {
    EscapeMarkdownExample();
    var r := EscapeMarkdown("a_b_c");
    assert r == "a\\_b" + "_c";
    assert r[4] == '_' && r[3] != '\\';
  }

  /** In the account column the names are joined with newlines before the escaping: with the
      names "a_b" and "_c_", only the first underscore gets a backslash, and "_c_" stays an
      italics span in Markdown. */
  lemma EscapeMarkdownJoinedColumn()
    ensures EscapeMarkdown("a_b\n" + "_c_\n") == "a\\_b\n" + "_c_\n"
    ensures !UnderscoresEscaped(EscapeMarkdown("a_b\n" + "_c_\n"))
  {
    var a, b := "a_b\n", "_c_\n";
    assert a[1] == '_';
    EscapeMarkdownLeavesRest(a, b);
    EscapeMarkdownEscapesFirst(a);
    assert FirstIndex(a, '_') == 1 by {
      assert a[1..] == "_b\n";
    }
    var r := EscapeMarkdown(a + b);
    assert r == "a\\_b\n" + "_c_\n";
    assert r[5] == '_' && r[4] != '\\';
  }

  /** The escaping `escapeMarkdown` evidently intends: a backslash before every underscore. */
  function EscapeUnderscores(text: string): (r: string)
    ensures text != [] ==> r != [] && r[0] != '_'
  {
    if text == [] then []
    else (if text[0] == '_' then "\\_" else [text[0]]) + EscapeUnderscores(text[1..])
  }

  /** Every underscore of `s` has a backslash right before it. */
  predicate UnderscoresEscaped(s: string) {
    forall i | 0 <= i < |s| && s[i] == '_' :: i > 0 && s[i - 1] == '\\'
  }

  /** Every underscore of the corrected result has a backslash right before it. */
  lemma {:induction false} EscapeUnderscoresEscapesAll(text: string)
    ensures UnderscoresEscaped(EscapeUnderscores(text))
  {
    if text != [] {
      var rest := EscapeUnderscores(text[1..]);
      EscapeUnderscoresEscapesAll(text[1..]);
      assert UnderscoresEscaped(rest);
      var head := if text[0] == '_' then "\\_" else [text[0]];
      var r := EscapeUnderscores(text);
      assert r == head + rest;
      forall i | 0 <= i < |r| && r[i] == '_'
        ensures i > 0 && r[i - 1] == '\\'
      {
        if i < |head| {
          assert r[i] == head[i];
          if text[0] == '_' {
            assert head[0] == '\\' && head[1] == '_';
            assert i == 1 && r[0] == head[0];
          } else {
            assert false;
          }
        } else {
          var k := i - |head|;
          assert r[i] == rest[k] == '_';
          if k > 0 {
            assert rest[k - 1] == '\\';
            assert r[i - 1] == rest[k - 1];
          } else {
            assert false;
          }
        }
      }
    }
  }

  /** Drops the backslash in front of each underscore, reading from the left. */
  function Unescape(s: string): (r: string)
    decreases |s|
  {
    if s == [] then []
    else if |s| >= 2 && s[0] == '\\' && s[1] == '_' then "_" + Unescape(s[2..])
    else [s[0]] + Unescape(s[1..])
  }

  /** The corrected escaping loses nothing: dropping the added backslashes gives the text back,
      backslashes of the text itself included. */
  lemma {:induction false} UnescapeEscapeUnderscores(text: string)
    ensures Unescape(EscapeUnderscores(text)) == text
  {
    if text != [] {
      var rest := EscapeUnderscores(text[1..]);
      UnescapeEscapeUnderscores(text[1..]);
      var r := EscapeUnderscores(text);
      if text[0] == '_' {
        assert r == "\\_" + rest;
        assert r[2..] == rest;
      } else {
        assert r == [text[0]] + rest;
        assert r[1..] == rest;
        assert !(|r| >= 2 && r[0] == '\\' && r[1] == '_');
      }
      assert text == [text[0]] + text[1..];
    }
  }

  /** On "a_b_c" the corrected escaping reaches both underscores. */
  lemma EscapeUnderscoresExample()
    ensures EscapeUnderscores("a_b_c") == "a\\_b\\_c"
  {
    assert "a_b_c"[1..] == "_b_c";
    assert "_b_c"[1..] == "b_c";
    assert "b_c"[1..] == "_c";
    assert "_c"[1..] == "c";
    assert "c"[1..] == "";
  }

  // ---------------------------------------------------------------------------------------
  // The username pattern of /whitelist remove account and /whitelist query account
  // ---------------------------------------------------------------------------------------

  /** The pattern matched against stored usernames: a Bedrock name is looked for behind the
      "." that marks Bedrock usernames; any other account type uses the name as entered. */
  function UsernamePattern(accountType: string, account: string): (pattern: string)
    ensures accountType == "bedrock" ==> |pattern| == |account| + 1 && pattern[0] == '.' && pattern[1..] == account
    ensures accountType != "bedrock" ==> pattern == account
  {
    if accountType == "bedrock" then "." + account else account
  }

  // ---------------------------------------------------------------------------------------
  // Replies to a delete
  // ---------------------------------------------------------------------------------------

  /** What the store answers to a delete. */
  datatype DeleteResult = DeleteResult(acknowledged: bool, deletedCount: int)

  /** The three replies, tested in this order: not acknowledged, something deleted, nothing. */
  datatype DeleteReply = RetryLater | Removed(count: nat) | NothingRemoved

  function ClassifyDelete(result: DeleteResult): (reply: DeleteReply)
    ensures reply == RetryLater <==> !result.acknowledged
    ensures reply.Removed? <==> result.acknowledged && result.deletedCount > 0
    ensures reply.Removed? ==> reply.count == result.deletedCount
    ensures reply == NothingRemoved <==> result.acknowledged && result.deletedCount <= 0
  {
    if !result.acknowledged then RetryLater
    else if result.deletedCount > 0 then Removed(result.deletedCount)
    else NothingRemoved
  }

  const RetryText := "Something went wrong, please try again."
  const NoMatchText := "No entries found with those filters."
  const AlreadyEmptyText := "The whitelist is already empty."

  const RemovedPrefix := "Successfully removed "
  const RemovedSuffix := " entries from the whitelist."

  /** The text of a reply; `nothingText` is the one the subcommand uses when nothing was
      deleted. The count of a removal is written in decimal between the fixed parts and reads
      back as that count. */
  function ReplyText(reply: DeleteReply, nothingText: string): (r: string)
    ensures reply == RetryLater ==> r == RetryText
    ensures reply == NothingRemoved ==> r == nothingText
    ensures reply.Removed? ==>
              && |r| > |RemovedPrefix| + |RemovedSuffix|
              && r[..|RemovedPrefix|] == RemovedPrefix
              && r[|r| - |RemovedSuffix|..] == RemovedSuffix
              && AllDigits(r[|RemovedPrefix|..|r| - |RemovedSuffix|])
              && DecimalValue(r[|RemovedPrefix|..|r| - |RemovedSuffix|]) == reply.count
  {
    match reply
    case RetryLater => RetryText
    case Removed(n) =>
      var digits := NatToString(n);
      var r := RemovedPrefix + digits + RemovedSuffix;
      NatToStringRoundTrip(n);
      assert r[..|RemovedPrefix|] == RemovedPrefix;
      assert r[|r| - |RemovedSuffix|..] == RemovedSuffix;
      assert r[|RemovedPrefix|..|r| - |RemovedSuffix|] == digits;
      r
    case NothingRemoved => nothingText
  }

  /** The reply of /whitelist remove account and /whitelist remove user: the retry text
      exactly when the delete was not acknowledged, the no-match text exactly when it was and
      nothing was deleted, and otherwise the removal with its count. */
  function RemoveReplyText(result: DeleteResult): (r: string)
    ensures r == RetryText <==> !result.acknowledged
    ensures r == NoMatchText <==> result.acknowledged && result.deletedCount <= 0
    ensures result.acknowledged && result.deletedCount > 0 ==>
              |r| > |RemovedPrefix| && r[..|RemovedPrefix|] == RemovedPrefix
  {
    var r := ReplyText(ClassifyDelete(result), NoMatchText);
    assert RetryText[0] == 'S' && RetryText[1] == 'o' && NoMatchText[0] == 'N';
    if ClassifyDelete(result).Removed? then
      assert r[1] == RemovedPrefix[1] == 'u';
      r
    else r
  }

  /** The three replies are told apart by their text, so a user can tell "nothing matched"
      from a failed delete. */
  lemma RemoveRepliesDistinct(r1: DeleteResult, r2: DeleteResult)
    requires ClassifyDelete(r1) != ClassifyDelete(r2)
    ensures RemoveReplyText(r1) != RemoveReplyText(r2)
  {
    var c1, c2 := ClassifyDelete(r1), ClassifyDelete(r2);
    if c1.Removed? && c2.Removed? {
      var n1, n2 := c1.count, c2.count;
      var t1, t2 := ReplyText(c1, NoMatchText), ReplyText(c2, NoMatchText);
      assert t1 == t2 ==> n1 == n2;
    }
  }

  // ---------------------------------------------------------------------------------------
  // /whitelist clear
  // ---------------------------------------------------------------------------------------

  const ConfirmPromptText := "Are you sure you want to clear the whitelist? If so please rerun the command with the confirm option set to true."

  /** One run of /whitelist clear: whether the store was asked to delete everything, and the
      reply. */
  datatype ClearRun = ClearRun(removeManyCalled: bool, reply: string)

  /** /whitelist clear with the `confirm` option (absent, true or false) and the answer
      `storeResult` that the store gives if it is asked to delete everything. */
  function Clear(confirm: Option<bool>, storeResult: DeleteResult): (run: ClearRun)
    ensures run.removeManyCalled <==> confirm == Some(true)
    ensures !run.removeManyCalled ==> run.reply == ConfirmPromptText
    ensures run.removeManyCalled ==> run.reply == ReplyText(ClassifyDelete(storeResult), AlreadyEmptyText)
  {
    if confirm != Some(true) then ClearRun(false, ConfirmPromptText)
    else ClearRun(true, ReplyText(ClassifyDelete(storeResult), AlreadyEmptyText))
  }

  // ---------------------------------------------------------------------------------------
  // /whitelist list
  // ---------------------------------------------------------------------------------------

  /** Entries per page. */
  const PageLimit := 20

  /** How /whitelist list starts for a store of `total` entries. */
  datatype ListStart = NoEntries(reply: string) | SinglePage(skip: int) | Paged(skip: int)

  function StartList(total: int): (s: ListStart)
    ensures s.NoEntries? <==> total == 0
    ensures s.NoEntries? ==> s.reply == "No entries found."
    ensures s.SinglePage? <==> total != 0 && total <= PageLimit
    ensures s.Paged? <==> total > PageLimit
    ensures !s.NoEntries? ==> s.skip == 0
  {
    if total == 0 then NoEntries("No entries found.")
    else if total <= PageLimit then SinglePage(0)
    else Paged(0)
  }

  /** A skip the pages can show: a whole number of pages into the list, before its end. */
  predicate ValidSkip(skip: int, total: int) {
    0 <= skip < total && skip % PageLimit == 0
  }

  /** The button handler: "next" moves a page forward, any other button a page back, and a
      move that would leave [0, total) is ignored. */
  function NextSkip(skip: int, total: int, button: string): (s: int)
    ensures s == skip || s == skip + PageLimit || s == skip - PageLimit
    ensures s != skip <==> 0 <= skip + (if button == "next" then PageLimit else -PageLimit) < total
    ensures ValidSkip(skip, total) ==> ValidSkip(s, total)
  {
    var offset := if button == "next" then PageLimit else -PageLimit;
    if skip + offset < 0 || skip + offset >= total then skip else skip + offset
  }

  /** The skip after a series of button presses. */
  function PressAll(skip: int, total: int, buttons: seq<string>): int
    decreases buttons
  {
    if buttons == [] then skip else PressAll(NextSkip(skip, total, buttons[0]), total, buttons[1..])
  }

  /** No series of presses leaves the valid skips. */
  lemma {:induction false} PressAllKeepsValid(skip: int, total: int, buttons: seq<string>)
    requires ValidSkip(skip, total)
    ensures ValidSkip(PressAll(skip, total, buttons), total)
    decreases buttons
  {
    if buttons != [] {
      PressAllKeepsValid(NextSkip(skip, total, buttons[0]), total, buttons[1..]);
    }
  }

  function Repeat(button: string, n: nat): (r: seq<string>)
    ensures |r| == n && forall i | 0 <= i < n :: r[i] == button
  {
    if n == 0 then [] else [button] + Repeat(button, n - 1)
  }

  /** Every page is reached: n presses of "next" from page k show page k + n while it exists. */
  lemma {:induction false} NextReachesEveryPage(skip: int, total: int, n: nat)
    requires ValidSkip(skip, total)
    requires skip + n * PageLimit < total
    ensures PressAll(skip, total, Repeat("next", n)) == skip + n * PageLimit
    decreases n
  {
    if n > 0 {
      var r := Repeat("next", n);
      assert r[0] == "next" && r[1..] == Repeat("next", n - 1);
      assert NextSkip(skip, total, "next") == skip + PageLimit;
      NextReachesEveryPage(skip + PageLimit, total, n - 1);
    }
  }

  /** `Math.ceil(a / b)` for a positive b. */
  function CeilDiv(a: int, b: int): (q: int)
    requires b > 0
    ensures b * (q - 1) < a <= b * q
  {
    -((-a) / b)
  }

  /** The numbers in the footer "Page p of n - k entries of t total.". */
  datatype Footer = Footer(page: nat, pages: nat, shown: nat, noun: string, total: nat)

  /** The footer for a page starting at `skip`, with `shown` entries on it. */
  function PageFooter(skip: int, total: int, shown: nat): (f: Footer)
    requires 0 <= skip < total
    ensures 1 <= f.page <= f.pages
    ensures PageLimit * (f.page - 1) <= skip < PageLimit * f.page
    ensures PageLimit * (f.pages - 1) < total <= PageLimit * f.pages
    ensures f.noun == (if shown == 1 then "entry" else "entries")
  {
    Footer(skip / PageLimit + 1, CeilDiv(total, PageLimit), shown, if shown == 1 then "entry" else "entries", total)
  }

  /** The footer text: "Page ", the page number, " of " and the page count come first, and
      both numbers read back from the text. */
  function FooterText(f: Footer): (r: string)
    ensures var p, q := |NatToString(f.page)|, |NatToString(f.pages)|;
            && |r| > 9 + p + q
            && r[..5] == "Page "
            && AllDigits(r[5..5 + p]) && DecimalValue(r[5..5 + p]) == f.page
            && r[5 + p..9 + p] == " of "
            && AllDigits(r[9 + p..9 + p + q]) && DecimalValue(r[9 + p..9 + p + q]) == f.pages
  {
    var page, pages := NatToString(f.page), NatToString(f.pages);
    var r := "Page " + page + " of " + pages + FooterTail(f);
    FooterHeadSlices(page, pages, FooterTail(f));
    NatToStringRoundTrip(f.page);
    NatToStringRoundTrip(f.pages);
    r
  }

  /** The part of the footer after the page count. */
  function FooterTail(f: Footer): string {
    " - " + NatToString(f.shown) + " " + f.noun + " of " + NatToString(f.total) + " total."
  }

  lemma FooterHeadSlices(page: string, pages: string, tail: string)
    ensures var r := "Page " + page + " of " + pages + tail;
            var p, q := |page|, |pages|;
            && |r| == 9 + p + q + |tail|
            && r[..5] == "Page " && r[5..5 + p] == page && r[5 + p..9 + p] == " of "
            && r[9 + p..9 + p + q] == pages
  {
    var r := "Page " + page + " of " + pages + tail;
    var p, q := |page|, |pages|;
    assert forall k | 0 <= k < p :: r[5 + k] == page[k];
    assert forall k | 0 <= k < q :: r[9 + p + k] == pages[k];
    assert r[..5] == "Page ";
    assert r[5 + p..9 + p] == " of ";
  }

  /** The state of one /whitelist list reply with page buttons: the skip that the buttons move
      and the total counted when the command ran. */
  class ListPager {
    var skip: int
    const total: int

    ghost predicate Valid()
      reads this
    {
      ValidSkip(skip, total)
    }

    /** The buttons are only shown when there is more than one page. */
    constructor (total: int)
      requires total > PageLimit
      ensures Valid() && skip == 0 && this.total == total
    {
      skip := 0;
      this.total := total;
    }

    method Press(button: string)
      requires Valid()
      modifies this
      ensures Valid()
      ensures skip == NextSkip(old(skip), total, button)
    {
      var offset := if button == "next" then PageLimit else -PageLimit;
      if skip + offset < 0 || skip + offset >= total {
        return;
      }
      skip := skip + offset;
    }

    function CurrentFooter(shown: nat): (f: Footer)
      reads this
      requires Valid()
      ensures 1 <= f.page <= f.pages && f.total == total
    {
      PageFooter(skip, total, shown)
    }
  }

  // ---------------------------------------------------------------------------------------
  // Routing of the subcommands
  // ---------------------------------------------------------------------------------------

  /** The handlers of /whitelist. */
  datatype Action = AddEntry | RemoveAccount | RemoveUser | QueryAccount | QueryUser | ListEntries | ClearAll

  /** The list given to newSubcommandHandler, in the order of the source. */
  function WhitelistHandlers(): seq<Subcommands.SubcommandHandler<Action>> {
    [ Subcommands.SubcommandHandler("/add", AddEntry),
      Subcommands.SubcommandHandler("remove/account", RemoveAccount),
      Subcommands.SubcommandHandler("remove/user", RemoveUser),
      Subcommands.SubcommandHandler("query/account", QueryAccount),
      Subcommands.SubcommandHandler("query/user", QueryUser),
      Subcommands.SubcommandHandler("/list", ListEntries),
      Subcommands.SubcommandHandler("/clear", ClearAll) ]
  }

  /** The subcommands the slash-command definition declares, and the handler each should
      reach. */
  function DeclaredRoutes(): seq<(Option<string>, string, Action)> {
    [ (None, "add", AddEntry),
      (Some("remove"), "account", RemoveAccount),
      (Some("remove"), "user", RemoveUser),
      (Some("query"), "account", QueryAccount),
      (Some("query"), "user", QueryUser),
      (None, "list", ListEntries),
      (None, "clear", ClearAll) ]
  }

  /** The handler names have pairwise different lengths, so no two of them are equal. */
  lemma HandlerNamesDistinct(i: nat, j: nat)
    requires i < j < |WhitelistHandlers()|
    ensures WhitelistHandlers()[i].name != WhitelistHandlers()[j].name
  {
    var lengths := [4, 14, 11, 13, 10, 5, 6];
    assert forall k | 0 <= k < 7 :: |WhitelistHandlers()[k].name| == lengths[k];
  }

  /** The key of the i-th declared subcommand is the name of the i-th handler. */
  lemma RouteKeyIsHandlerName(i: nat)
    requires i < |DeclaredRoutes()|
    ensures var (group, command, _) := DeclaredRoutes()[i];
            Subcommands.DispatchKey(group, command) == WhitelistHandlers()[i].name
  {
    var (group, command, _) := DeclaredRoutes()[i];
    var text := Subcommands.GroupText(group);
    assert Subcommands.DispatchKey(group, command) == text + "/" + command;
    if i == 0 || i == 5 || i == 6 {
      assert text == "";
    } else if i == 1 || i == 2 {
      assert text == "remove";
    } else {
      assert text == "query";
    }
  }

  /** Every declared subcommand reaches its own handler: its key names exactly one handler in
      the list, so no handler is overridden and none is missing. */
  lemma EveryDeclaredRouteHandled<A, R>(i: nat, run: (Action, Subcommands.ExecuteOptions<A>) -> R, args: A)
    requires i < |DeclaredRoutes()|
    ensures var (group, command, action) := DeclaredRoutes()[i];
            var options := Subcommands.ExecuteOptions(Subcommands.Interaction(true, group, command), args);
            Subcommands.Dispatch(Subcommands.HandlerMap(WhitelistHandlers()), run, options) ==
              Subcommands.Handled(run(action, options))
  {
    var (group, command, action) := DeclaredRoutes()[i];
    var options := Subcommands.ExecuteOptions(Subcommands.Interaction(true, group, command), args);
    var hs := WhitelistHandlers();
    RouteKeyIsHandlerName(i);
    forall j | i < j < |hs|
      ensures hs[j].name != hs[i].name
    {
      HandlerNamesDistinct(i, j);
    }
    assert hs[i].execute == action;
    assert Subcommands.IsLastNamed(hs, i, hs[i].name);
    Subcommands.DispatchRunsLastNamed(hs, run, options);
  }
}
