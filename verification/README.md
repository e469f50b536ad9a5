# Slack glossary bot — a Dafny model

The bot keeps a glossary of keywords and their descriptions. It works as two
AWS Lambda functions:

- The front receiver (`slackbot.py`) answers Slack's URL-verification
  challenge. Otherwise it takes `text` and `channel` out of the event and
  trims the text. If the trimmed text then starts with the bot's mention
  `<@BOT_USER_ID>`, it removes every occurrence of the mention and trims
  again. It then hands
  `{text, channel}` to the worker asynchronously and acknowledges with
  `200 OK` straight away.
- The command worker (`async_lambda_function.py`) recognises five commands.
  They are `!word <k>`, `!addword <k> <d>`, `!update <k> <d>`, `!list` and
  `!deleteword <k>`. It runs the command against the glossary table and
  posts exactly one reply to the channel.

Files:

- `text.dfy` (module `Text`): the Python string operations the handlers use,
  written out with their properties. These are `strip()` (with Python's
  whitespace set), `startswith`, `split(" ", n)`, `replace(mention, "")` and
  `join`.
- `worker.dfy` (module `Worker`): the command parser `Parse` and the replies,
  as functions. The class `Glossary` holds the table
  (`map<string, string>`) and the replies posted so far. Its methods
  `AddWord`, `UpdateWord` and `DeleteWord` change the table in place, and
  `Handle` is the worker's `lambda_handler`. The ghost predicate `Outcome`
  says what one handled command does to the table and which reply it posts.
- `receiver.dfy` (module `Receiver`): `CleanText` and `Receive`, over an
  already-parsed callback body. The asynchronous invocation is the
  `Payload` value it would carry.
- `wrappers.dfy` (module `Wrappers`): `Option`, for fields the body may lack.

Behaviours of the code worth knowing:

- The worker does not trim the incoming text as a whole, so a command with
  a leading space is invalid.
- `!word ` and `!deleteword ` have no emptiness check, so `!word ` looks up
  `""`.
- `!list` lists the keywords in the order the scan returns them, all of
  them, one per line.
- The receiver removes every occurrence of the mention, not only the
  leading one, but only when the trimmed text starts with the mention.
- `!addword` and `!update` store the keyword as `split(" ", 2)` cuts it,
  without stripping, while `!word` and `!deleteword` strip theirs. A
  keyword stored with whitespace other than a space at either end (such
  as the full-width space U+3000) cannot be reached by `!word` or
  `!deleteword`.
- The five commands above are the only ones; any other text gets the
  invalid-command reply.

## Model

| member | source | states |
|---|---|---|
| Text.Strip | slackbot.py:30 | `strip()` leaves no whitespace (Python's `isspace` set) at either end |
| Text.StripCutOf | slackbot.py:30 | what `strip()` keeps is a contiguous part of the input, and everything cut off is whitespace |
| Text.StripCharacterized | slackbot.py:30 | any whitespace-only cut that leaves both ends non-whitespace is exactly `strip()`'s result |
| Text.StripIdempotent | slackbot.py:30 | a general property of `strip()`: stripping again changes nothing |
| Text.StartsWith | async_lambda_function.py:21-40 | `s.startswith(p)` holds exactly when `s` is `p` followed by the rest of `s` |
| Text.Split | async_lambda_function.py:25 | `split(" ", n)` gives 1 to n+1 parts; cut-off parts contain no space; fewer than n+1 parts means the last part has no space |
| Text.SplitJoin | async_lambda_function.py:25 | joining the parts with the separator gives back the original text |
| Text.SplitCharacterized | async_lambda_function.py:25 | any parts that join back, have no separator in a cut-off part, and either used all cuts or have no separator left, are exactly the split |
| Text.Join | async_lambda_function.py:69 | `sep.join(parts)`; its properties are stated by `Text.JoinEnds`, `Text.JoinPrefixed` and `Text.SplitJoin` |
| Text.JoinEnds | async_lambda_function.py:69 | `sep.join(parts)` of a non-empty list opens with its first part and closes with its last |
| Text.JoinPrefixed | async_lambda_function.py:69 | `sep + sep.join(ws)` is each element preceded by `sep`, in order |
| Text.RemoveAll | slackbot.py:35 | `replace(p, "")` never makes the text longer |
| Text.RemoveAllUnchanged | slackbot.py:35 | the length changes exactly when `p` occurs, and a text without `p` comes back unchanged |
| Text.RemoveAllAt | slackbot.py:35 | the first occurrence is removed wherever it starts, not only at the front: the text before it is kept and removal goes on after it |
| Worker.Parse | async_lambda_function.py:21-44 | the result is `ListWords` exactly for the text `!list`; a rejection carries one of the two usage lines or the invalid-command line |
| Worker.ParseWord | async_lambda_function.py:21-23 | `!word <k>` looks up `k` trimmed; `!word ` looks up the empty keyword |
| Worker.ParseAdd | async_lambda_function.py:24-30 | `!addword k d` with a space-free `k` adds `(k, d)`; `d` keeps its inner spaces |
| Worker.ParseAddUsage | async_lambda_function.py:24-27 | `!addword` with no space after the keyword yields the add usage line |
| Worker.ParseAddShape | async_lambda_function.py:24-30 | every `!addword ` line is an add whose parts spell the line back exactly, or the usage line when nothing follows the keyword |
| Worker.ParseUpdate | async_lambda_function.py:31-37 | `!update k d` with a space-free `k` updates `k` to `d` |
| Worker.ParseUpdateUsage | async_lambda_function.py:31-34 | `!update` with no space after the keyword yields the update usage line |
| Worker.ParseUpdateShape | async_lambda_function.py:31-37 | every `!update ` line is an update that spells the line back, or the usage line |
| Worker.ParseDelete | async_lambda_function.py:40-42 | `!deleteword <k>` deletes `k` trimmed |
| Worker.ParseInvalid | async_lambda_function.py:21-44 | the invalid-command reply is given exactly when the text starts with none of `!word `, `!addword `, `!update `, `!deleteword ` and is not `!list` |
| Worker.LeadingSpaceInvalid | async_lambda_function.py:21-44 | every text that starts with a space gets the invalid-command reply, because the text is not trimmed |
| Worker.NearMissesInvalid | async_lambda_function.py:38-44 | `!word` with no space and `!list ` with a trailing space get the invalid-command reply |
| Worker.ParseRender | async_lambda_function.py:21-42 | parsing the typed form of any typable command gives that command back |
| Worker.GetWord | async_lambda_function.py:48-50 | the stored description for a present keyword, otherwise exactly `わかりませーん` |
| Worker.ListReplyLines | async_lambda_function.py:69 | a non-empty listing is the header and then one `\n- keyword` per scanned keyword, in scan order |
| Worker.ListReply | async_lambda_function.py:67-69 | the no-keywords message is given exactly when the scan is empty |
| Worker.AddedReply | async_lambda_function.py:54 | the add confirmation is `` ✅ ` `` + the keyword + `` ` を登録しました！ ``, the keyword starting at index 3 |
| Worker.UpdatedReply | async_lambda_function.py:62 | the update confirmation is `` 🔄 ` `` + the keyword + `` ` の情報を更新しました！ ``, the keyword starting at index 3 |
| Worker.DeletedReply | async_lambda_function.py:73 | the delete confirmation is `✅ '` + the keyword + `' を削除しました！`, the keyword starting at index 3 |
| Worker.RepliesNameKeyword | async_lambda_function.py:52-73 | the add, update and delete confirmations each contain the keyword |
| Worker.ConfirmationsDistinct | async_lambda_function.py:52-73 | no add, update or delete confirmation equals one of another kind, whatever the keywords |
| Worker.Outcome | async_lambda_function.py:17-46 | after one command: lookups, listings and rejections keep the table; add and update set the keyword to the description, keeping every other key; delete removes exactly that key; a rejection replies its message |
| Worker.AddThenLookup | async_lambda_function.py:48-54 | for a keyword `k` with no space and no whitespace at either end, `!addword k d` then `!word k` replies `d`, whatever was stored before |
| Worker.UpdateThenLookup | async_lambda_function.py:56-62 | for a keyword `k` with no space and no whitespace at either end, `!update k d` then `!word k` replies `d`, even when `k` was absent before (upsert) |
| Worker.UntrimmedKeywordUnreachable | async_lambda_function.py:21-30 | for a space-free `k` with other whitespace at an end, `!addword k d` stores `k`, but `!word k` looks up the stripped keyword and replies the placeholder when that is absent |
| Worker.FullWidthSpaceKept | async_lambda_function.py:22 | `x` followed by U+3000 has no space, and stripping it leaves `x`, so it is such a keyword |
| Worker.DeleteThenLookup | async_lambda_function.py:71-73 | for any `k`, `!deleteword k` then `!word k` removes exactly `k` trimmed and replies the placeholder, whether or not it existed |
| Worker.Glossary.constructor | async_lambda_function.py:13-15 | the worker starts with the given table and no replies posted |
| Worker.Glossary.AddWord | async_lambda_function.py:52-54 | the table maps `k` to `d` and no other key changes; the reply names `k` |
| Worker.Glossary.UpdateWord | async_lambda_function.py:56-62 | the table maps `k` to `d` (created if absent) and no other key changes; the reply names `k` |
| Worker.Glossary.DeleteWord | async_lambda_function.py:71-73 | `k` is absent and no other key changes (a no-op if `k` was absent); the confirmation is unconditional |
| Worker.Glossary.ScanKeywords | async_lambda_function.py:65-66 | the scan yields every stored keyword exactly once (the multiset equals the key set) |
| Worker.Glossary.ListWords | async_lambda_function.py:64-69 | the reply is the listing of some order of all keys, each once; it is the no-keywords message exactly when the table is empty |
| Worker.Glossary.SendMessage | async_lambda_function.py:75-76 | exactly one `(channel, text)` reply is appended |
| Worker.Glossary.Handle | async_lambda_function.py:17-46 | exactly one reply goes to the given channel; table and reply are those of `Outcome` for the parsed command; rejected and read-only commands leave the table unchanged |
| Receiver.Mention | slackbot.py:33 | the mention token is non-empty and starts with `<` |
| Receiver.CleanText | slackbot.py:30-35 | the hand-off text never has whitespace at either end |
| Receiver.CleanLeadingMention | slackbot.py:33-35 | when the trimmed text is the mention followed by `rest`, the result is `rest` with every mention removed, then trimmed |
| Receiver.Receive | slackbot.py:22-45 | always status 200; a challenge is echoed exactly and nothing is handed off; otherwise the body is `OK` and exactly one payload is handed off: the event's text cleaned by `CleanText` (so trimmed), and the event's channel, `""` for a missing field |
| Receiver.CleanEmpty | slackbot.py:30-35 | empty text is cleaned to empty text |
| Receiver.MissingEventDefault | slackbot.py:25-31 | a body without an event hands off empty text to the empty channel |
| Receiver.MissingTextDefault | slackbot.py:30-31 | an event without text hands off empty text, to the event's channel when it has one |
| Receiver.MissingChannelDefault | slackbot.py:30-31 | an event without a channel hands off its cleaned text to the empty channel |
| Receiver.UnmentionedTextTrimmed | slackbot.py:30-34 | text that does not start with the mention is handed off only trimmed, with the event's channel |
| Receiver.SplitMentionJoined | slackbot.py:35 | removing `<@U1>` from `<@<@U1>U1>` leaves `<@U1>` |
| Receiver.MentionCanSurvive | slackbot.py:30-35 | the cleaned text can still start with the mention (`<@U1><@<@U1>U1>` is cleaned to `<@U1>`) |
| Receiver.MentionedTextCleaned | slackbot.py:30-35 | the mention, a space, then trimmed text free of the mention (possibly empty) is cleaned to exactly that text |
| Receiver.MentionedCommandReachesWorker | slackbot.py:30-42 | "@bot <command>" is handed off as exactly the command text, with the channel, and the worker parses it as that command |

## Left out

- DynamoDB: the table is an abstract map. Scan pagination and its 1 MB page
  limit, projection and update-expression syntax, and service errors are
  not modelled. One such error is the rejection of an empty-string key.
  Four commands can send the key `""`: `!word `, `!deleteword `, and
  `!addword` or `!update` with two spaces before the description
  (`!addword  d`). A store error propagates out of the worker in the code,
  and then no reply is sent. The model has no failing store: it looks up
  or deletes `""` and, for add and update, stores the entry under `""`
  and confirms.
- Scan order: the store chooses it. `ScanKeywords` picks keys in an
  unspecified order, and the list contract holds for any order.
- `created_at`: no code in these files reads or writes it. With no other
  attributes, `put_item` and `update_item` set the same single attribute,
  so `AddWord` and `UpdateWord` change the table the same way.
- Slack's `chat_postMessage`: represented only by the `(channel, text)`
  record appended to `outbox`. It is fire-and-forget, and its result is not
  inspected.
- Lambda `invoke` with `InvocationType='Event'`: asynchronous and
  unordered, with no delivery guarantee (a failed run can be retried, so a
  payload may be handled more than once). Only the payload value is
  modelled, not delivery, retries or ordering between invocations.
- `json.loads`/`json.dumps`: the body arrives as a structured record.
  `challenge` is taken to be a string, and the echoed body is a value,
  not JSON text. The event's `text` and `channel` are taken to be strings
  or absent, never JSON `null`: in the code a `null` text makes `.strip()`
  raise, and `Option<string>` has no value for it.
- Environment variables, client construction and logging. `BOT_USER_ID` is
  a parameter; in the code an unset variable gives the mention `<@None>`,
  which is just another parameter value.
- A `KeyError` when the worker's event lacks `text` or `channel`, or when
  the receiver's request lacks `body`: the model's inputs always have
  these fields.
- Text.Split: models `str.split` only with a one-character separator, the
  only kind the code uses.
- Text.RemoveAll: models `str.replace` only with a non-empty pattern and
  an empty replacement, the only use in the code (the mention is never
  empty).
