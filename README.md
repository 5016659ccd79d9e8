# LikeCommands cog — a Dafny model

This project models the state-keeping core of the `LikeCommands` Discord cog
(`cogs/likeCommands.py`). The cog sends Free Fire "likes" through an HTTP API
and schedules daily auto-likes. The model covers:

- **The channel allow-list** (`ChannelConfig`). This is the per-guild list of
  channel ids kept in `like_channels.json`. It covers `check_channel`, the
  add/remove toggle of `setlikechannel`, and `load_config`/`save_config`,
  with the file's contents as a value.
- **The cooldown gate of `like`** (`CooldownGate`). The elapsed time is read
  through `timedelta.seconds`, which is the seconds-of-day field. It drops
  whole days.
- **Argument checks** (`Regions`). The UID must be only digits and at least 6
  characters long. The region must be one of IND, BD or BR, compared after
  upper-casing. This module also holds the region flag lookup
  (`get_server_flag`) and the task key `"{uid}_{server}_{channel_id}"`.
- **The auto-like registry** (`AutoLikeRegistry`). `auto_like_tasks` is a
  sequence of (key, job) entries in insertion order, because the listing shows
  that order. Keys are distinct.
- **The cog itself** (`LikeCog.LikeCommands`). It is a class whose fields are:
  - the channel configuration and its file;
  - the cooldown map;
  - the registry;
  - a log of the GET requests sent through the HTTP session.

  Each command is a method. The Discord context is broken into plain ids:
  guild (absent outside a guild), channel and user. The API's answer to a
  request is a parameter. The current time is a parameter counted in whole
  microseconds.
- **The Python string built-ins** the cog relies on (`Text`). These are
  `isdigit`, `upper`, `str(int)`, `int(str)` and `rsplit(sep, maxsplit)`,
  all on ASCII.

The main results:

- **Task keys.** A task key splits back into its UID, region and channel with
  `rsplit('_', 2)`. Two different jobs never share a key.
  - So `stop_auto_like` removes exactly the job for that UID, upper-cased
    region and channel.
  - So `list_auto_likes` shows each registered job's UID, region, flag and
    channel, in insertion order.
- **The toggle.**
  - It keeps allow-lists free of duplicates.
  - On a list without duplicates, it flips exactly one channel.
  - On a list without duplicates, toggling twice gives back the same
    permissions.
  - A list read from the file may hold a channel twice, since `load_config`
    takes any list. Then `list.remove` drops only the first copy, and toggling
    twice can open a guild that allowed only that channel.
  - The first channel added to an unrestricted guild restricts that guild to
    that channel.
- **The cooldown.**
  - A second `like` within 30 s is refused, and the wait it reports is
    between 1 and 30 s.
  - A `like` between 30 s and a day later is admitted, and so is one made
    that long after any whole number of days.
  - Because whole days are dropped, a `like` within 30 s of a whole number of
    days later is refused again.
- **No request before the checks.** No request is sent before the channel,
  cooldown, UID and region checks pass. For `auto_like`, none is sent either
  while a task for the same key is running.
- **The cog's invariant.** Every command keeps two facts. First, the registry
  is well formed: every entry holds a valid UID and an accepted region, and
  sits under its own key. Second, reloading the configuration file gives back
  exactly the configuration in memory.

Behaviour of the code that the model follows as written:

- `stop_auto_like` and `list_auto_likes` do not consult the channel
  allow-list.
- `stop_auto_like` does not validate its arguments. It builds the key from the
  upper-cased region and the current channel.
- `auto_like` registers the task on any HTTP 200 from its probe, whatever the
  body's `status` says.
- The cooldown compares only the seconds-of-day part of the elapsed time.
- In `like`, the cooldown timestamp is written before the UID and region are
  checked. So a rejected call still starts a cooldown.
- The request that `like` sends uses the region as typed. The request of
  `auto_like` uses it upper-cased.
- The listing shows UID, region and channel, not the user who started the
  task.
- The `rsplit` round trip needs only that the region and channel contain no
  `_`. The all-digits UID check is what makes keys unambiguous.

## Model

| member | source | states |
|---|---|---|
| Text.Upper | cogs/likeCommands.py:307 | `server.upper()` keeps the length and upper-cases each character on its own |
| Text.UpperIdempotent | cogs/likeCommands.py:64 | upper-casing an already upper-cased region (as the flag lookup does) changes nothing |
| Regions.ServerFlagOfUpper | cogs/likeCommands.py:64 | the flag of the upper-cased region, as keys and the listing hold it, is the flag of the region as typed |
| Text.DigitChar | cogs/likeCommands.py:161 | each digit of `str(channel.id)` is an ASCII digit |
| Text.Decimal | cogs/likeCommands.py:161 | `str(id)` is a non-empty string of digits |
| Text.DecimalRoundTrip | cogs/likeCommands.py:411 | `int(str(n)) == n`, so `int(channel_id)` recovers the channel id that went into a key |
| Text.DecimalInjective | cogs/likeCommands.py:52 | different ids have different decimal strings, so the allow-list membership test compares ids |
| Text.LastIndexOf | cogs/likeCommands.py:410 | finds the last occurrence of the separator, and none exactly when the separator is absent |
| Text.SplitLast | cogs/likeCommands.py:410 | cuts at the last separator: the string is left + separator + right, and right holds no separator |
| Text.JoinOneMore | cogs/likeCommands.py:410 | joining one more part after a joined prefix appends separator and part |
| Text.RSplit | cogs/likeCommands.py:410 | `rsplit(sep, maxsplit)` gives 1 to maxsplit+1 parts, none but the first holds the separator, the first only when the split limit was reached, and joining the parts with the separator gives the string back |
| Text.LastSeparator | cogs/likeCommands.py:410 | in `a + sep + t` with no separator in `t`, the last cut is exactly between `a` and `t` |
| Text.RSplitThree | cogs/likeCommands.py:410 | `(a_b_d).rsplit('_', 2) == [a, b, d]` whenever `b` and `d` hold no `_`, even if `a` does |
| Regions.ServerFlag | cogs/likeCommands.py:57-64 | the flag is India, Bangladesh or Brazil exactly for IND, BD, BR after upper-casing, and the globe otherwise |
| Regions.ValidateInput | cogs/likeCommands.py:296-307 | accepts exactly a UID of at least six ASCII digits with an upper-cased region in IND/BD/BR; the UID error wins over the region error; on success returns the upper-cased region, which holds no `_` |
| Regions.TaskKeySplit | cogs/likeCommands.py:308 | a task key rsplits back into UID, region and channel digits, and the channel digits read back as the channel id |
| Regions.TaskKeyInjective | cogs/likeCommands.py:362-364 | with a digit UID and a valid region, the key determines UID, region and channel |
| ChannelConfig.ReloadRestoresSaved | cogs/likeCommands.py:25-45 | loading a saved file gives back what was saved; the default written back on a missing or corrupt file reloads as the same empty configuration |
| ChannelConfig.ChannelAllowed | cogs/likeCommands.py:47-52 | outside a guild every channel is allowed; in a guild with no or an empty allow-list too; otherwise exactly the listed channels |
| ChannelConfig.FirstIndex | cogs/likeCommands.py:164 | `list.remove` deletes at the first occurrence of the channel |
| ChannelConfig.RemoveFirst | cogs/likeCommands.py:164 | removal shortens the list by one and keeps every other channel's membership |
| ChannelConfig.ToggledServers | cogs/likeCommands.py:157-168 | the toggle creates the guild's entry if missing, toggles that guild's list and leaves every other guild alone |
| ChannelConfig.ToggleFlipsOnlyThatChannel | cogs/likeCommands.py:163-168 | an unlisted channel becomes listed, a listed one (in a list without duplicates) unlisted, and no other channel's membership changes |
| ChannelConfig.DeleteKeepsNoDuplicates | cogs/likeCommands.py:164 | deleting one position keeps a list free of duplicates |
| ChannelConfig.AppendKeepsNoDuplicates | cogs/likeCommands.py:168 | appending an unlisted channel keeps a list free of duplicates |
| ChannelConfig.ToggleKeepsNoDuplicates | cogs/likeCommands.py:163-168 | the toggle keeps an allow-list free of duplicates |
| ChannelConfig.ToggleTwiceRestoresList | cogs/likeCommands.py:163-168 | adding then removing an unlisted channel gives back the very same list |
| ChannelConfig.ToggleTwiceSameMembers | cogs/likeCommands.py:163-168 | toggling twice gives back the same members, and an empty list exactly when it was empty |
| ChannelConfig.ToggleTwiceWithDuplicateEmpties | cogs/likeCommands.py:163-168 | a list holding channel 5 twice, toggled twice on 5, ends up empty, so the guild allows every channel |
| ChannelConfig.ToggleTwiceRestoresPermissions | cogs/likeCommands.py:149-170 | running `setlikechannel` twice on one channel restores `check_channel` for every guild and channel |
| ChannelConfig.ToggleKeepsListsDistinct | cogs/likeCommands.py:157-169 | no guild's allow-list gains a duplicate through the toggle |
| ChannelConfig.FirstChannelRestrictsGuild | cogs/likeCommands.py:168-170 | the first channel allowed in an unrestricted guild makes it the only channel where the commands work |
| CooldownGate.ElapsedSeconds | cogs/likeCommands.py:191 | `timedelta.seconds` is in [0, 86400) and, for a gap under a day, the whole seconds of the gap |
| CooldownGate.CooldownWait | cogs/likeCommands.py:187-194 | a user without an entry is never refused; one with an entry is refused exactly while fewer than 30 elapsed seconds are counted, and the reported wait is 1 to 30 |
| CooldownGate.RefusedWithinCooldown | cogs/likeCommands.py:188-195 | a call under 30 s after the admitted one is refused with `30 - whole seconds elapsed` |
| CooldownGate.ElapsedSecondsOfDay | cogs/likeCommands.py:191 | for a gap of any length or sign, `timedelta.seconds` is the whole seconds left after taking out whole days |
| CooldownGate.AdmittedAfterCooldown | cogs/likeCommands.py:188-195 | a call 30 s to a day after any whole number of days since the admitted one passes the gate |
| CooldownGate.RefusedAgainAfterWholeDays | cogs/likeCommands.py:191-192 | a call within 30 s of any whole number of days after the admitted one is refused again |
| AutoLikeRegistry.Listing | cogs/likeCommands.py:408-413 | the listing has one line per task, in insertion order, each showing the task's UID, region, flag and channel |
| AutoLikeRegistry.KeyLineOfEntry | cogs/likeCommands.py:409-413 | every key `auto_like` inserts parses, with `rsplit('_', 2)` and `int`, back into its own job's line (no `ValueError`) |
| AutoLikeRegistry.ListingStep | cogs/likeCommands.py:409-413 | parsing the next key of a well-formed registry extends the listing by exactly that task's line |
| AutoLikeRegistry.IndexOfKey | cogs/likeCommands.py:370 | a present key is found at an index holding that key |
| AutoLikeRegistry.KeyIdentifiesJob | cogs/likeCommands.py:361-372 | the entry found under a key built from UID, region and channel is the job for exactly those |
| AutoLikeRegistry.AppendKeepsWellFormed | cogs/likeCommands.py:311-329 | inserting a validated job under a fresh key keeps keys distinct and adds exactly that key |
| AutoLikeRegistry.RemoveAtShifts | cogs/likeCommands.py:372 | `del` closes the gap: later entries move down by one, earlier ones stay |
| AutoLikeRegistry.RemoveKeepsWellFormed | cogs/likeCommands.py:372 | deleting an entry keeps keys distinct and every entry well formed |
| AutoLikeRegistry.RemovedKeysWereThere | cogs/likeCommands.py:372 | after `del`, every key left was there before and is not the deleted one |
| AutoLikeRegistry.OtherKeysStay | cogs/likeCommands.py:372 | after `del`, every other key is still there |
| AutoLikeRegistry.RemoveDropsKey | cogs/likeCommands.py:372 | `del` removes exactly the deleted key from the key set |
| AutoLikeRegistry.RemoveLastUndoesAppend | cogs/likeCommands.py:329-372 | the key of a task just registered is found at the last position, and `del` under that key gives back the registry as it was |
| Text.DecimalValue | cogs/likeCommands.py:411 | defines `int(s)` for a string of ASCII digits |
| Regions.ValidUid | cogs/likeCommands.py:297 | defines the accepted UID: only digits, at least six of them |
| Regions.TaskKey | cogs/likeCommands.py:308 | defines the task key `f"{uid}_{server}_{channel_id}"` |
| ChannelConfig.Saved | cogs/likeCommands.py:40-45 | defines the file `save_config` writes: the servers of the configuration |
| ChannelConfig.LoadedServers | cogs/likeCommands.py:25-38 | defines the servers `load_config` returns: the parsed ones (`{}` when the key is missing), or none when the file is missing or corrupt |
| ChannelConfig.FileAfterLoad | cogs/likeCommands.py:29-38 | defines the file after `load_config`: unchanged when it parsed, otherwise the default written back |
| ChannelConfig.LikeChannels | cogs/likeCommands.py:51 | defines a guild's allow-list: `[]` when the guild or its list is missing |
| ChannelConfig.Toggled | cogs/likeCommands.py:163-168 | defines the toggle: remove the first copy of a listed channel, otherwise append it |
| AutoLikeRegistry.RemoveAt | cogs/likeCommands.py:372 | defines `del auto_like_tasks[key]` at the entry's index |
| AutoLikeRegistry.KeyLine | cogs/likeCommands.py:410-411 | defines the line built from a key: `rsplit('_', 2)` unpacked into three parts and `int()` of the channel part, with no line for the `ValueError` either step raises |
| LikeCog.LikeAnswer | cogs/likeCommands.py:212-281 | defines the reply of `like` to the API's answer: 404 not found, other non-200 unavailable, 200 liked (delivered when the body's status is 1), timeout, other error |
| LikeCog.LikeCommands.constructor | cogs/likeCommands.py:16-22 | the configuration is what `load_config` reads (the default written back if unreadable); no cooldowns, no tasks, no requests; reloading the file gives back the configuration in memory |
| LikeCog.LikeCommands.SetLikeChannel | cogs/likeCommands.py:149-170 | outside a guild nothing changes; in one, the guild's list is toggled, the reply says removed or added, the file holds the new configuration (so a reload gives back what is in memory), and lists free of duplicates stay so |
| LikeCog.LikeCommands.Like | cogs/likeCommands.py:172-281 | channel check, then the cooldown (timestamp set before validation), then UID and region checks; only then one request, whose 404 / other non-200 / 200 with status 1 or not / timeout / other error is reported |
| LikeCog.LikeCommands.AutoLike | cogs/likeCommands.py:283-354 | channel check, UID and region checks, duplicate key refused with no request; otherwise one probe; exactly a 200 registers the job under its key at the end |
| LikeCog.LikeCommands.StopAutoLike | cogs/likeCommands.py:356-392 | the key from UID, upper-cased region and current channel; absent: nothing changes; present: exactly that job is deleted |
| LikeCog.LikeCommands.ListAutoLikes | cogs/likeCommands.py:394-417 | "no tasks" exactly when the registry is empty, otherwise the listing of every task in insertion order |

## Left out

- The HTTP session (aiohttp) is not modelled. Each request is logged, and the
  API's answer is a parameter. A JSON body that fails to decode is folded into
  "any other exception".
- `auto_like_loop` and `send_auto_like` are not modelled: the 24-hour sleep,
  the retries and the messages they send. Task creation and `task.cancel()`
  are not modelled either. The registry records the job the task was started
  with.
- JSON file I/O is not modelled. `json.dump` followed by `json.load` is taken
  to round-trip. Only the missing-file and corrupt-file cases of `load_config`
  are distinguished. `like_channels` is taken to be a list of strings, as
  `setlikechannel` writes it.
- The Discord side is not modelled: embeds and message texts, the text of
  `format_server_with_flag`, the `_send_*` helpers, `cog_load`,
  `cog_unload`, `setup`, `get_channel` and channel names in the listing.
  The flag emoji are a datatype.
- Like: the guard `if uid and server is None` is not modelled, and neither is
  a missing `uid` (which would raise on `uid.isdigit()`). Both arguments are
  always given.
- The unterminated string literal in the `auto_like` confirmation embed is
  not modelled. The file cannot be parsed as written. The model takes the
  evident intent, an attachment URL.
- `str.isdigit` and `str.upper` are modelled on ASCII only. Python also
  accepts other Unicode digits and case-maps non-ASCII letters.
- KeyLine: `int()` also accepts a sign, surrounding spaces and underscores.
  The model reads only plain digits, which is all that registered keys
  contain.
- Like: the two `datetime.now()` reads, for the check and for the new
  timestamp, are taken as one instant.
- The `has_permissions(administrator=True)` check on `setlikechannel` is
  enforced by discord.py before the command runs. It is not modelled.
- Exceptions raised after a task is registered are not modelled. For example,
  a failed confirmation message leaves the task registered, as it does in the
  source.
- Concurrency is not modelled; each command runs atomically. In the source,
  the `await` between the duplicate check and the insertion in `auto_like`
  lets two concurrent calls for the same key both pass the check.
- The `print` logging is not modelled.
