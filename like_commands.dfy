/**
 * The `LikeCommands` cog as a state machine over its own fields: the channel
 * configuration and its file, the cooldown map, the auto-like registry, and
 * the log of GET requests sent through its HTTP session. Each command takes
 * the Discord context apart into plain ids, and the API's answer to a
 * request is a parameter.
 */
module LikeCog {
  import opened Wrappers
  import opened Text
  import opened Regions
  import opened ChannelConfig
  import opened CooldownGate
  import opened AutoLikeRegistry

  /** What the like API answered to one GET, or the exception the request raised. */
  datatype ApiReply =
    | Response(status: int, likeStatus: Option<int>)  // HTTP status, and the body's "status" field
    | Timeout                                         // asyncio.TimeoutError
    | RequestError                                    // any other exception

  /** One GET of `{api_host}/like?uid={uid}&server={server}`. */
  datatype Request = LikeRequest(uid: string, server: string)

  datatype ToggleOutcome = GuildOnly | ChannelRemoved | ChannelAdded

  datatype LikeOutcome =
    | LikeChannelDenied
    | CoolingDown(remaining: int)
    | LikeRejected(error: InputError)
    | PlayerNotFound
    | ServiceUnavailable
    | Liked(delivered: bool)  // false: the player already had the day's maximum
    | TimedOut
    | LikeFailed

  datatype AutoLikeOutcome =
    | AutoLikeChannelDenied
    | AutoLikeRejected(error: InputError)
    | AlreadyRunning(key: string)
    | ProbeNotFound
    | ProbeUnavailable
    | StartFailed
    | Started(key: string)

  datatype StopOutcome = NoSuchTask(key: string) | Stopped(key: string)

  datatype ListReply = NoActiveTasks | ActiveTasks(entries: seq<ListEntry>)

  /** How `like` reports the API's answer once its arguments are valid. */
  function LikeAnswer(reply: ApiReply): LikeOutcome {
    match reply
    case Response(status, likeStatus) =>
      if status == 404 then PlayerNotFound
      else if status != 200 then ServiceUnavailable
      else Liked(likeStatus == Some(1))
    case Timeout => TimedOut
    case RequestError => LikeFailed
  }

  class LikeCommands {
    var servers: Servers              // config_data["servers"]
    var configFile: ConfigFile        // like_channels.json
    var cooldowns: map<nat, int>      // user id -> time of the last admitted `like`
    var autoLikeTasks: seq<TaskEntry> // auto_like_tasks, in insertion order
    var requests: seq<Request>        // GETs sent through the session

    /**
     * Every registered task was validated and sits under its own, unique
     * key, and reloading the configuration file gives back exactly the
     * configuration in memory.
     */
    predicate Valid()
      reads this
    {
      && RegistryWellFormed(autoLikeTasks)
      && LoadedServers(configFile) == servers
    }

    /** `__init__`: load the configuration; no cooldowns, no tasks. */
    constructor (file: ConfigFile)
      ensures Valid()
      ensures servers == LoadedServers(file) && configFile == FileAfterLoad(file)
      ensures cooldowns == map[] && autoLikeTasks == [] && requests == []
    {
      servers := LoadedServers(file);
      configFile := FileAfterLoad(file);
      cooldowns := map[];
      autoLikeTasks := [];
      requests := [];
    }

    /**
     * `set_like_channel`: in a guild, remove the channel from the guild's
     * allow-list when listed, append it otherwise, and save the file.
     */
    method SetLikeChannel(guild: Option<nat>, channel: nat) returns (r: ToggleOutcome)
      requires Valid()
      modifies this
      ensures Valid()
      ensures cooldowns == old(cooldowns) && autoLikeTasks == old(autoLikeTasks) && requests == old(requests)
      ensures guild.None? ==> r == GuildOnly && servers == old(servers) && configFile == old(configFile)
      ensures guild.Some? ==>
        var gid, c := Decimal(guild.value), Decimal(channel);
        && servers == ToggledServers(old(servers), gid, c)
        && configFile == Saved(servers)
        && r == (if c in LikeChannels(old(servers), gid) then ChannelRemoved else ChannelAdded)
      ensures ChannelListsDistinct(old(servers)) ==> ChannelListsDistinct(servers)
    {
      if guild.None? {
        return GuildOnly;
      }
      var gid := Decimal(guild.value);
      var likeChannels := LikeChannels(servers, gid);
      var c := Decimal(channel);
      if c in likeChannels {
        likeChannels := RemoveFirst(likeChannels, c);
        r := ChannelRemoved;
      } else {
        likeChannels := likeChannels + [c];
        r := ChannelAdded;
      }
      if ChannelListsDistinct(servers) {
        ToggleKeepsListsDistinct(servers, gid, c);
      }
      servers := servers[gid := ServerConfig(Some(likeChannels))];
      configFile := Saved(servers);
    }

    /**
     * `like`: channel check, then the cooldown (its timestamp is written
     * before the arguments are checked), then the UID and server checks,
     * then one GET whose answer is reported.
     */
    method Like(guild: Option<nat>, channel: nat, user: nat, server: string, uid: string,
                now: int, reply: ApiReply) returns (r: LikeOutcome)
      requires Valid()
      modifies this
      ensures Valid()
      ensures servers == old(servers) && configFile == old(configFile) && autoLikeTasks == old(autoLikeTasks)
      ensures !ChannelAllowed(servers, guild, channel) ==>
        r == LikeChannelDenied && cooldowns == old(cooldowns) && requests == old(requests)
      ensures ChannelAllowed(servers, guild, channel) && CooldownWait(old(cooldowns), user, now).Some? ==>
        && r == CoolingDown(CooldownWait(old(cooldowns), user, now).value)
        && 1 <= r.remaining <= CooldownSeconds
        && cooldowns == old(cooldowns) && requests == old(requests)
      ensures ChannelAllowed(servers, guild, channel) && CooldownWait(old(cooldowns), user, now).None? ==>
        && cooldowns == old(cooldowns)[user := now]
        && (ValidateInput(uid, server).Err? ==>
              r == LikeRejected(ValidateInput(uid, server).error) && requests == old(requests))
        && (ValidateInput(uid, server).Ok? ==>
              r == LikeAnswer(reply) && requests == old(requests) + [LikeRequest(uid, server)])
    {
      if !ChannelAllowed(servers, guild, channel) {
        return LikeChannelDenied;
      }
      var wait := CooldownWait(cooldowns, user, now);
      if wait.Some? {
        return CoolingDown(wait.value);
      }
      cooldowns := cooldowns[user := now];
      var checked := ValidateInput(uid, server);
      if checked.Err? {
        return LikeRejected(checked.error);
      }
      requests := requests + [LikeRequest(uid, server)];
      r := LikeAnswer(reply);
    }

    /**
     * `auto_like`: channel check, UID and server checks, then the duplicate
     * check on the key, and only then one probing GET; a 200 registers the
     * task, whatever the body says.
     */
    method AutoLike(guild: Option<nat>, channel: nat, user: nat, uid: string, server: string,
                    reply: ApiReply) returns (r: AutoLikeOutcome)
      requires Valid()
      modifies this
      ensures Valid()
      ensures servers == old(servers) && configFile == old(configFile) && cooldowns == old(cooldowns)
      ensures !ChannelAllowed(servers, guild, channel) ==>
        r == AutoLikeChannelDenied && autoLikeTasks == old(autoLikeTasks) && requests == old(requests)
      ensures ChannelAllowed(servers, guild, channel) && ValidateInput(uid, server).Err? ==>
        && r == AutoLikeRejected(ValidateInput(uid, server).error)
        && autoLikeTasks == old(autoLikeTasks) && requests == old(requests)
      ensures ChannelAllowed(servers, guild, channel) && ValidateInput(uid, server).Ok? ==>
        var region := Upper(server);
        var key := TaskKey(uid, region, channel);
        if key in Keys(old(autoLikeTasks)) then
          r == AlreadyRunning(key) && autoLikeTasks == old(autoLikeTasks) && requests == old(requests)
        else
          && requests == old(requests) + [LikeRequest(uid, region)]
          && (r == Started(key) <==> reply.Response? && reply.status == 200)
          && (r == Started(key) ==>
                && autoLikeTasks == old(autoLikeTasks) + [TaskEntry(key, Job(uid, region, channel, user))]
                && Keys(autoLikeTasks) == Keys(old(autoLikeTasks)) + {key})
          && (r != Started(key) ==> autoLikeTasks == old(autoLikeTasks))
          && (reply.Response? && reply.status == 404 ==> r == ProbeNotFound)
          && (reply.Response? && reply.status != 404 && reply.status != 200 ==> r == ProbeUnavailable)
          && (!reply.Response? ==> r == StartFailed)
    {
      if !ChannelAllowed(servers, guild, channel) {
        return AutoLikeChannelDenied;
      }
      var checked := ValidateInput(uid, server);
      if checked.Err? {
        return AutoLikeRejected(checked.error);
      }
      var region := checked.value;
      var key := TaskKey(uid, region, channel);
      if key in Keys(autoLikeTasks) {
        return AlreadyRunning(key);
      }
      requests := requests + [LikeRequest(uid, region)];
      match reply
      case Response(status, _) =>
        if status == 404 {
          r := ProbeNotFound;
        } else if status != 200 {
          r := ProbeUnavailable;
        } else {
          var entry := TaskEntry(key, Job(uid, region, channel, user));
          AppendKeepsWellFormed(autoLikeTasks, entry);
          autoLikeTasks := autoLikeTasks + [entry];
          r := Started(key);
        }
      case _ =>
        r := StartFailed;
    }

    /**
     * `stop_auto_like`: no channel check and no validation; the upper-cased
     * region and the current channel make the key, and a present key is
     * deleted.
     */
    method StopAutoLike(channel: nat, uid: string, server: string) returns (r: StopOutcome)
      requires Valid()
      modifies this
      ensures Valid()
      ensures servers == old(servers) && configFile == old(configFile)
      ensures cooldowns == old(cooldowns) && requests == old(requests)
      ensures
        var key := TaskKey(uid, Upper(server), channel);
        if key !in Keys(old(autoLikeTasks)) then
          r == NoSuchTask(key) && autoLikeTasks == old(autoLikeTasks)
        else
          var i := IndexOfKey(old(autoLikeTasks), key);
          && r == Stopped(key)
          && autoLikeTasks == RemoveAt(old(autoLikeTasks), i)
          && Keys(autoLikeTasks) == Keys(old(autoLikeTasks)) - {key}
          && old(autoLikeTasks)[i].job.uid == uid
          && old(autoLikeTasks)[i].job.server == Upper(server)
          && old(autoLikeTasks)[i].job.channel == channel
    {
      var key := TaskKey(uid, Upper(server), channel);
      if key !in Keys(autoLikeTasks) {
        return NoSuchTask(key);
      }
      var i := IndexOfKey(autoLikeTasks, key);
      KeyIdentifiesJob(autoLikeTasks, uid, Upper(server), channel, i);
      RemoveKeepsWellFormed(autoLikeTasks, i);
      RemoveDropsKey(autoLikeTasks, i);
      autoLikeTasks := RemoveAt(autoLikeTasks, i);
      r := Stopped(key);
    }

    /**
     * `list_auto_likes`: every key, in insertion order, split back with
     * `rsplit('_', 2)` and its channel part read with `int`.
     */
    method ListAutoLikes() returns (r: ListReply)
      requires Valid()
      ensures r == NoActiveTasks <==> autoLikeTasks == []
      ensures r.ActiveTasks? ==> r.entries == Listing(autoLikeTasks)
    {
      if autoLikeTasks == [] {
        return NoActiveTasks;
      }
      var tasks := autoLikeTasks;
      var entries: seq<ListEntry> := [];
      var i := 0;
      while i < |tasks|
        invariant 0 <= i <= |tasks|
        invariant entries == Listing(tasks[..i])
      {
        ListingStep(tasks, i);
        entries := entries + [KeyLine(tasks[i].key).value];
        i := i + 1;
      }
      assert tasks[..i] == tasks;
      r := ActiveTasks(entries);
    }
  }
}
