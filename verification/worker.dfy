/**
 The command worker: it receives `{text, channel}`, recognises one of five
 commands by a literal prefix (or, for `!list`, by the whole text), reads or
 writes the glossary table, and posts exactly one reply to the channel.

 The table is a map from keyword to description. The parser and the read
 operations are functions; the three writes and the handler are methods of
 `Glossary`, whose fields are the table and the replies posted so far.
 */
module Worker {
  import opened Text

  /** What one line of text asks for. `Reject` carries the reply for a
      malformed or unknown command. */
  datatype Command =
    | Lookup(keyword: string)
    | AddWord(keyword: string, description: string)
    | UpdateWord(keyword: string, description: string)
    | ListWords
    | DeleteWord(keyword: string)
    | Reject(message: string)

  /** One `chat_postMessage` call. */
  datatype Message = Message(channel: string, text: string)

  const UnknownWord := "わかりませーん"
  const AddUsage := "⚠️ 正しい形式: `!addword <keyword> <description>`"
  const UpdateUsage := "⚠️ 正しい形式: `!update <keyword> <description>`"
  const InvalidCommand := "⚠️ 無効なコマンドです"
  const NoKeywords := "⚠️ 登録されているキーワードがありません。"
  const ListHeader := "📋 登録済みのキーワード:"
  const Bullet := "\n- "

  function AddedReply(keyword: string): (r: string)
    ensures OccursAt(r, keyword, 3) && r[..3] == "✅ `"
    ensures r[3 + |keyword|..] == "` を登録しました！"
  {
    "✅ `" + keyword + "` を登録しました！"
  }

  function UpdatedReply(keyword: string): (r: string)
    ensures OccursAt(r, keyword, 3) && r[..3] == "🔄 `"
    ensures r[3 + |keyword|..] == "` の情報を更新しました！"
  {
    "🔄 `" + keyword + "` の情報を更新しました！"
  }

  function DeletedReply(keyword: string): (r: string)
    ensures OccursAt(r, keyword, 3) && r[..3] == "✅ '"
    ensures r[3 + |keyword|..] == "' を削除しました！"
  {
    "✅ '" + keyword + "' を削除しました！"
  }

  /** A text that starts with a command name and a space is cut at that
      space first. */
  lemma {:induction false} CommandSplit(text: string, name: string, n: nat)
    requires ' ' !in name && StartsWith(text, name + " ")
    ensures Split(text, ' ', n + 1) == [name] + Split(text[|name| + 1..], ' ', n)
  {
    assert text == name + [' '] + text[|name| + 1..];
    SplitStep(name, ' ', text[|name| + 1..], n);
  }

  /** The dispatcher of `lambda_handler`: the first matching prefix wins.
      The whole text is not trimmed; a one-argument command takes the text
      after its first space, trimmed, with no emptiness check; a
      two-argument command splits on single spaces at most twice. */
  function Parse(text: string): (cmd: Command)
    ensures cmd == ListWords <==> text == "!list"
    ensures cmd.Reject? ==> cmd.message in {AddUsage, UpdateUsage, InvalidCommand}
  {
    if StartsWith(text, "!word ") then
      CommandSplit(text, "!word", 0);
      var parts := Split(text, ' ', 1);
      Lookup(Strip(parts[1]))
    else if StartsWith(text, "!addword ") then
      var parts := Split(text, ' ', 2);
      if |parts| < 3 then Reject(AddUsage) else AddWord(parts[1], parts[2])
    else if StartsWith(text, "!update ") then
      var parts := Split(text, ' ', 2);
      if |parts| < 3 then Reject(UpdateUsage) else UpdateWord(parts[1], parts[2])
    else if text == "!list" then
      ListWords
    else if StartsWith(text, "!deleteword ") then
      CommandSplit(text, "!deleteword", 0);
      var parts := Split(text, ' ', 1);
      DeleteWord(Strip(parts[1]))
    else
      Reject(InvalidCommand)
  }

  /** `!word <k>` looks up `k` trimmed; `!word ` alone looks up "". */
  lemma {:induction false} ParseWord(k: string)
    ensures Parse("!word " + k) == Lookup(Strip(k))
  {
    var text := "!word " + k;
    CommandSplit(text, "!word", 0);
    assert text[6..] == k;
  }

  /** `!deleteword <k>` deletes `k` trimmed. */
  lemma {:induction false} ParseDelete(k: string)
    ensures Parse("!deleteword " + k) == DeleteWord(Strip(k))
  {
    var text := "!deleteword " + k;
    assert !StartsWith(text, "!word ") by { assert text[..6][1] == 'd'; }
    assert !StartsWith(text, "!addword ") by { assert text[..9][1] == 'd'; }
    assert !StartsWith(text, "!update ") by { assert text[..8][1] == 'd'; }
    assert text != "!list" by { assert text[1] == 'd'; }
    assert StartsWith(text, "!deleteword ") by { assert text[..12] == "!deleteword "; }
    assert Split(text, ' ', 1)[1] == k by {
      CommandSplit(text, "!deleteword", 0);
      assert text[12..] == k;
      assert Split(k, ' ', 0) == [k];
    }
  }

  /** The argument part after `name ` splits into a space-free keyword and
      the rest of the line. */
  lemma {:induction false} TwoArguments(name: string, k: string, d: string)
    requires ' ' !in name && ' ' !in k
    ensures Split(name + " " + k + " " + d, ' ', 2) == [name, k, d]
  {
    var text := name + " " + k + " " + d;
    CommandSplit(text, name, 1);
    assert text[|name| + 1..] == k + [' '] + d;
    SplitStep(k, ' ', d, 0);
  }

  /** With no space after `name `, there is only one argument part. */
  lemma {:induction false} OneArgument(name: string, r: string)
    requires ' ' !in name && ' ' !in r
    ensures Split(name + " " + r, ' ', 2) == [name, r]
  {
    var text := name + " " + r;
    CommandSplit(text, name, 1);
    assert text[|name| + 1..] == r;
    assert Find(r, ' ') == |r|;
  }

  /** `!addword <k> <d>` stores `d` under `k`; the description keeps its
      inner spaces. */
  lemma {:induction false} ParseAdd(k: string, d: string)
    requires ' ' !in k
    ensures Parse("!addword " + k + " " + d) == AddWord(k, d)
  {
    var text := "!addword " + k + " " + d;
    assert !StartsWith(text, "!word ") by { assert text[..6][1] == 'a'; }
    assert StartsWith(text, "!addword ") by { assert text[..9] == "!addword "; }
    assert text == "!addword" + " " + k + " " + d;
    TwoArguments("!addword", k, d);
  }

  /** `!addword` followed by fewer than two space-separated parts is answered
      with the usage line. */
  lemma {:induction false} ParseAddUsage(r: string)
    requires ' ' !in r
    ensures Parse("!addword " + r) == Reject(AddUsage)
  {
    var text := "!addword " + r;
    assert !StartsWith(text, "!word ") by { assert text[..6][1] == 'a'; }
    assert StartsWith(text, "!addword ") by { assert text[..9] == "!addword "; }
    assert text == "!addword" + " " + r;
    OneArgument("!addword", r);
  }

  lemma {:induction false} ParseUpdate(k: string, d: string)
    requires ' ' !in k
    ensures Parse("!update " + k + " " + d) == UpdateWord(k, d)
  {
    var text := "!update " + k + " " + d;
    assert !StartsWith(text, "!word ") by { assert text[..6][1] == 'u'; }
    assert !StartsWith(text, "!addword ") by { assert text[..8][1] == 'u'; }
    assert StartsWith(text, "!update ") by { assert text[..8] == "!update "; }
    assert text == "!update" + " " + k + " " + d;
    TwoArguments("!update", k, d);
  }

  lemma {:induction false} ParseUpdateUsage(r: string)
    requires ' ' !in r
    ensures Parse("!update " + r) == Reject(UpdateUsage)
  {
    var text := "!update " + r;
    assert !StartsWith(text, "!word ") by { assert text[..6][1] == 'u'; }
    assert !StartsWith(text, "!addword ") by { assert text[..8][1] == 'u'; }
    assert StartsWith(text, "!update ") by { assert text[..8] == "!update "; }
    assert text == "!update" + " " + r;
    OneArgument("!update", r);
  }

  /** Every `!addword ` line is either an add whose keyword has no space and
      which the line spells out exactly, or the usage reply when no space
      follows the keyword. */
  lemma {:induction false} ParseAddShape(text: string)
    requires StartsWith(text, "!addword ")
    ensures || (Parse(text).AddWord? && ' ' !in Parse(text).keyword
                && text == "!addword " + Parse(text).keyword + " " + Parse(text).description)
            || (Parse(text) == Reject(AddUsage) && ' ' !in text[9..])
  {
    var rest := text[9..];
    assert text == "!addword " + rest;
    var i := Find(rest, ' ');
    if i == |rest| {
      ParseAddUsage(rest);
    } else {
      var k, d := rest[..i], rest[i + 1..];
      assert text == "!addword " + k + " " + d by { assert rest == k + " " + d; }
      ParseAdd(k, d);
    }
  }

  /** Every `!update ` line is either an update spelled out exactly by the
      line, or the usage reply. */
  lemma {:induction false} ParseUpdateShape(text: string)
    requires StartsWith(text, "!update ")
    ensures || (Parse(text).UpdateWord? && ' ' !in Parse(text).keyword
                && text == "!update " + Parse(text).keyword + " " + Parse(text).description)
            || (Parse(text) == Reject(UpdateUsage) && ' ' !in text[8..])
  {
    var rest := text[8..];
    assert text == "!update " + rest;
    var i := Find(rest, ' ');
    if i == |rest| {
      ParseUpdateUsage(rest);
    } else {
      var k, d := rest[..i], rest[i + 1..];
      assert text == "!update " + k + " " + d by { assert rest == k + " " + d; }
      ParseUpdate(k, d);
    }
  }

  /** The invalid-command reply is given exactly when no command prefix
      matches and the text is not `!list`. */
  lemma {:induction false} ParseInvalid(text: string)
    ensures Parse(text) == Reject(InvalidCommand) <==>
      && !StartsWith(text, "!word ")
      && !StartsWith(text, "!addword ")
      && !StartsWith(text, "!update ")
      && text != "!list"
      && !StartsWith(text, "!deleteword ")
  {
    assert AddUsage[3] != InvalidCommand[3];
    assert UpdateUsage[3] != InvalidCommand[3];
  }

  /** The text is not trimmed as a whole: any text with a leading space is
      not a command. */
  lemma {:induction false} LeadingSpaceInvalid(t: string)
    ensures Parse(" " + t) == Reject(InvalidCommand)
  {
    var text := " " + t;
    assert !StartsWith(text, "!word ") by { assert |text| >= 6 ==> text[..6][0] == ' '; }
    assert !StartsWith(text, "!addword ") by { assert |text| >= 9 ==> text[..9][0] == ' '; }
    assert !StartsWith(text, "!update ") by { assert |text| >= 8 ==> text[..8][0] == ' '; }
    assert !StartsWith(text, "!deleteword ") by { assert |text| >= 12 ==> text[..12][0] == ' '; }
    assert text != "!list" by { assert text[0] == ' '; }
    ParseInvalid(text);
  }

  /** A command name without its space, or `!list` with anything after it,
      is not a command either. */
  lemma {:induction false} NearMissesInvalid()
    ensures Parse("!word") == Reject(InvalidCommand)
    ensures Parse("!list ") == Reject(InvalidCommand)
  {
    assert !StartsWith("!list ", "!word ") by { assert "!list "[..6][1] == 'l'; }
  }

  /** The text a user types for a command; `Reject` has none. */
  function Render(cmd: Command): string
    requires !cmd.Reject?
  {
    match cmd
    case Lookup(k) => "!word " + k
    case AddWord(k, d) => "!addword " + k + " " + d
    case UpdateWord(k, d) => "!update " + k + " " + d
    case ListWords => "!list"
    case DeleteWord(k) => "!deleteword " + k
  }

  /** A command that can be typed at all: keywords of one-argument commands
      have no surrounding whitespace, those of two-argument ones no space. */
  predicate Typable(cmd: Command)
  {
    match cmd
    case Lookup(k) => Trimmed(k)
    case AddWord(k, _) => ' ' !in k
    case UpdateWord(k, _) => ' ' !in k
    case ListWords => true
    case DeleteWord(k) => Trimmed(k)
    case Reject(_) => false
  }

  /** Parsing the typed form of a command gives the command back. */
  lemma {:induction false} ParseRender(cmd: Command)
    requires Typable(cmd)
    ensures Parse(Render(cmd)) == cmd
  {
    match cmd
    case Lookup(k) =>
      ParseWord(k);
      StripCharacterized(k, 0, k);
    case AddWord(k, d) => ParseAdd(k, d);
    case UpdateWord(k, d) => ParseUpdate(k, d);
    case ListWords =>
    case DeleteWord(k) =>
      ParseDelete(k);
      StripCharacterized(k, 0, k);
  }

  /** `get_word`: the stored description, or the fixed placeholder. */
  function GetWord(table: map<string, string>, keyword: string): (r: string)
    ensures keyword in table ==> r == table[keyword]
    ensures keyword !in table ==> r == UnknownWord
  {
    if keyword in table then table[keyword] else UnknownWord
  }

  /** The reply of `list_words` for the keywords in scan order `words`. */
  function ListReply(words: seq<string>): (r: string)
    ensures r == NoKeywords <==> |words| == 0
  {
    if |words| == 0 then NoKeywords
    else
      var r := ListHeader + Bullet + Join(Bullet, words);
      assert r[0] == ListHeader[0] != NoKeywords[0];
      r
  }

  /** A non-empty listing is the header followed by one bullet line per
      keyword, in the given order. */
  lemma {:induction false} ListReplyLines(words: seq<string>)
    requires |words| > 0
    ensures ListReply(words) == ListHeader + Prefixed(Bullet, words)
  {
    JoinPrefixed(Bullet, words);
    assert ListReply(words) == ListHeader + (Bullet + Join(Bullet, words));
  }

  /** The confirmations name the keyword they are about. */
  lemma {:induction false} RepliesNameKeyword(k: string)
    ensures Contains(AddedReply(k), k)
    ensures Contains(UpdatedReply(k), k)
    ensures Contains(DeletedReply(k), k)
  {
    assert OccursAt(AddedReply(k), k, 3);
    assert OccursAt(UpdatedReply(k), k, 3);
    assert OccursAt(DeletedReply(k), k, 3);
  }

  /** The three confirmations can be told apart, whatever their keywords. */
  lemma {:induction false} ConfirmationsDistinct(k1: string, k2: string)
    ensures AddedReply(k1) != UpdatedReply(k2)
    ensures AddedReply(k1) != DeletedReply(k2)
    ensures UpdatedReply(k1) != DeletedReply(k2)
  {
    assert AddedReply(k1)[0] != UpdatedReply(k2)[0];
    assert AddedReply(k1)[2] != DeletedReply(k2)[2];
    assert UpdatedReply(k1)[0] != DeletedReply(k2)[0];
  }

  /** What one handled command does: the table afterwards and the reply,
      given the table before. The listing may be in any order of the keys,
      each exactly once. */
  ghost predicate Outcome(before: map<string, string>, cmd: Command, after: map<string, string>, reply: string)
    ensures Outcome(before, cmd, after, reply) && (cmd.Lookup? || cmd.ListWords? || cmd.Reject?) ==> after == before
    ensures Outcome(before, cmd, after, reply) && (cmd.AddWord? || cmd.UpdateWord?) ==>
      after.Keys == before.Keys + {cmd.keyword} && after[cmd.keyword] == cmd.description
    ensures Outcome(before, cmd, after, reply) && cmd.DeleteWord? ==>
      after.Keys == before.Keys - {cmd.keyword}
    ensures Outcome(before, cmd, after, reply) && cmd.Reject? ==> reply == cmd.message
  {
    match cmd
    case Lookup(k) => after == before && reply == GetWord(before, k)
    case AddWord(k, d) => after == before[k := d] && reply == AddedReply(k)
    case UpdateWord(k, d) => after == before[k := d] && reply == UpdatedReply(k)
    case ListWords =>
      after == before && exists words :: multiset(words) == multiset(before.Keys) && reply == ListReply(words)
    case DeleteWord(k) => after == before - {k} && reply == DeletedReply(k)
    case Reject(m) => after == before && reply == m
  }

  /** `!addword k d` and then `!word k` replies `d`, whatever was stored. */
  lemma {:induction false} AddThenLookup(t0: map<string, string>, t1: map<string, string>, t2: map<string, string>,
                      k: string, d: string, r1: string, r2: string)
    requires ' ' !in k && Trimmed(k)
    requires Outcome(t0, Parse("!addword " + k + " " + d), t1, r1)
    requires Outcome(t1, Parse("!word " + k), t2, r2)
    ensures r2 == d && t2 == t0[k := d]
  {
    ParseAdd(k, d);
    ParseRender(Lookup(k));
  }

  /** A keyword stored with whitespace other than a space at either end
      (a full-width space, say) cannot be looked up: `!addword` keeps the
      keyword as split, while `!word` strips it before the lookup. */
  lemma {:induction false} UntrimmedKeywordUnreachable(t0: map<string, string>, t1: map<string, string>,
                                  t2: map<string, string>, k: string, d: string, r1: string, r2: string)
    requires ' ' !in k && Strip(k) != k && Strip(k) !in t0
    requires Outcome(t0, Parse("!addword " + k + " " + d), t1, r1)
    requires Outcome(t1, Parse("!word " + k), t2, r2)
    ensures k in t2 && t2[k] == d && r2 == UnknownWord
  {
    ParseAdd(k, d);
    ParseWord(k);
  }

  /** The full-width space U+3000 is such a keyword end. */
  lemma {:induction false} FullWidthSpaceKept()
    ensures var k := "x\U{3000}"; ' ' !in k && Strip(k) == "x" != k
  {
    var k := "x\U{3000}";
    assert IsSpace(k[1]);
    assert StripCut(k, 0, "x") by { assert k[1..] == "\U{3000}"; }
    StripCharacterized(k, 0, "x");
  }

  /** `!update k d` and then `!word k` replies `d`, whether or not `k` was
      stored before: the update creates a missing entry. */
  lemma {:induction false} UpdateThenLookup(t0: map<string, string>, t1: map<string, string>, t2: map<string, string>,
                         k: string, d: string, r1: string, r2: string)
    requires ' ' !in k && Trimmed(k)
    requires Outcome(t0, Parse("!update " + k + " " + d), t1, r1)
    requires Outcome(t1, Parse("!word " + k), t2, r2)
    ensures r2 == d && k in t2 && t2 == t0[k := d]
  {
    ParseUpdate(k, d);
    ParseRender(Lookup(k));
  }

  /** `!deleteword k` and then `!word k` replies the placeholder, whether or
      not `k` was stored. */
  lemma {:induction false} DeleteThenLookup(t0: map<string, string>, t1: map<string, string>, t2: map<string, string>,
                         k: string, r1: string, r2: string)
    requires Outcome(t0, Parse("!deleteword " + k), t1, r1)
    requires Outcome(t1, Parse("!word " + k), t2, r2)
    ensures r2 == UnknownWord && Strip(k) !in t2 && t2 == t0 - {Strip(k)}
  {
    ParseDelete(k);
    ParseWord(k);
  }

  /** The worker's state: the glossary table and the replies posted. */
  class Glossary {
    var table: map<string, string>
    var outbox: seq<Message>

    constructor (initial: map<string, string>)
      ensures table == initial && outbox == []
    {
      table := initial;
      outbox := [];
    }

    /** `add_word`: put the entry, overwriting any earlier one. */
    method AddWord(keyword: string, description: string) returns (reply: string)
      modifies this`table
      ensures table == old(table)[keyword := description]
      ensures GetWord(table, keyword) == description
      ensures reply == AddedReply(keyword) && Contains(reply, keyword)
    {
      table := table[keyword := description];
      reply := AddedReply(keyword);
      RepliesNameKeyword(keyword);
    }

    /** `update_word`: set the description; an absent keyword is created. */
    method UpdateWord(keyword: string, description: string) returns (reply: string)
      modifies this`table
      ensures table == old(table)[keyword := description]
      ensures GetWord(table, keyword) == description
      ensures reply == UpdatedReply(keyword) && Contains(reply, keyword)
    {
      table := table[keyword := description];
      reply := UpdatedReply(keyword);
      RepliesNameKeyword(keyword);
    }

    /** `delete_word`: remove the entry if there is one; confirm either way. */
    method DeleteWord(keyword: string) returns (reply: string)
      modifies this`table
      ensures table == old(table) - {keyword}
      ensures GetWord(table, keyword) == UnknownWord
      ensures reply == DeletedReply(keyword) && Contains(reply, keyword)
    {
      table := table - {keyword};
      reply := DeletedReply(keyword);
      RepliesNameKeyword(keyword);
    }

    /** The table scan: every keyword exactly once, in an order the store
        chooses. */
    method ScanKeywords() returns (words: seq<string>)
      ensures multiset(words) == multiset(table.Keys)
    {
      var remaining := table.Keys;
      words := [];
      while remaining != {}
        invariant remaining <= table.Keys
        invariant multiset(words) + multiset(remaining) == multiset(table.Keys)
        decreases |remaining|
      {
        var k :| k in remaining;
        assert multiset(remaining) == multiset(remaining - {k}) + multiset{k};
        words := words + [k];
        remaining := remaining - {k};
      }
    }

    /** `list_words`: the header and one bullet per keyword, or the empty
        message. */
    method ListWords() returns (reply: string)
      ensures exists words :: multiset(words) == multiset(table.Keys) && reply == ListReply(words)
      ensures reply == NoKeywords <==> |table| == 0
    {
      var words := ScanKeywords();
      reply := ListReply(words);
      assert |words| == |multiset(words)| == |multiset(table.Keys)| == |table.Keys|;
    }

    /** `send_message`: one reply to one channel. */
    method SendMessage(channel: string, text: string)
      modifies this`outbox
      ensures outbox == old(outbox) + [Message(channel, text)]
    {
      outbox := outbox + [Message(channel, text)];
    }

    /** `lambda_handler` of the worker: parse, run the command against the
        table, post exactly one reply to `channel`. */
    method Handle(text: string, channel: string)
      modifies this
      ensures |outbox| == |old(outbox)| + 1 && outbox[..|old(outbox)|] == old(outbox)
      ensures outbox[|old(outbox)|].channel == channel
      ensures Outcome(old(table), Parse(text), table, outbox[|old(outbox)|].text)
    {
      var cmd := Parse(text);
      var reply: string;
      match cmd {
        case Lookup(k) =>
          reply := GetWord(table, k);
        case AddWord(k, d) =>
          reply := AddWord(k, d);
        case UpdateWord(k, d) =>
          reply := UpdateWord(k, d);
        case ListWords =>
          reply := ListWords();
        case DeleteWord(k) =>
          reply := DeleteWord(k);
        case Reject(m) =>
          reply := m;
      }
      SendMessage(channel, reply);
    }
  }
}
