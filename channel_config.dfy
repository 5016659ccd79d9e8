/**
 * The channel allow-list kept in `like_channels.json`: per guild, the list of
 * channel ids (as strings) where `like` and `auto_like` may be used. An absent
 * or empty list allows every channel of the guild.
 */
module ChannelConfig {
  import opened Wrappers
  import opened Text

  /** One guild's entry in `config_data["servers"]`; its `like_channels` list may be missing. */
  datatype ServerConfig = ServerConfig(likeChannels: Option<seq<string>>)

  /** `config_data["servers"]`, keyed by the guild id as a string. */
  type Servers = map<string, ServerConfig>

  /** What `like_channels.json` holds: nothing, text that is not JSON, or a parsed object. */
  datatype ConfigFile = Missing | Corrupt | Stored(servers: Option<Servers>)

  /** The file `save_config` writes for the given servers. */
  function Saved(servers: Servers): ConfigFile {
    Stored(Some(servers))
  }

  /** `load_config`: the parsed servers (`{}` when the key is missing), or the default when unreadable. */
  function LoadedServers(file: ConfigFile): Servers {
    match file
    case Stored(Some(servers)) => servers
    case _ => map[]
  }

  /** The file after `load_config`: the default is written back when the file was missing or corrupt. */
  function FileAfterLoad(file: ConfigFile): ConfigFile {
    if file.Stored? then file else Saved(map[])
  }

  /** Reloading gives back exactly what was last saved, and loading never changes what a reload sees. */
  lemma ReloadRestoresSaved(servers: Servers, file: ConfigFile)
    ensures LoadedServers(Saved(servers)) == servers
    ensures LoadedServers(FileAfterLoad(file)) == LoadedServers(file)
  {
  }

  /** `config_data["servers"].get(gid, {}).get("like_channels", [])`. */
  function LikeChannels(servers: Servers, gid: string): seq<string> {
    if gid in servers && servers[gid].likeChannels.Some? then servers[gid].likeChannels.value else []
  }

  /**
   * `check_channel`: outside a guild every channel is allowed; inside one, a
   * missing or empty allow-list allows every channel and a non-empty one
   * allows exactly the channels it lists.
   */
  function ChannelAllowed(servers: Servers, guild: Option<nat>, channel: nat): (ok: bool)
    ensures guild.None? ==> ok
    ensures guild.Some? ==>
      var gid := Decimal(guild.value);
      if gid !in servers || servers[gid].likeChannels.None? || servers[gid].likeChannels.value == [] then ok
      else ok <==> Decimal(channel) in servers[gid].likeChannels.value
  {
    match guild
    case None => true
    case Some(g) =>
      var allowed := LikeChannels(servers, Decimal(g));
      allowed == [] || Decimal(channel) in allowed
  }

  predicate NoDuplicates(l: seq<string>) {
    forall i, j :: 0 <= i < j < |l| ==> l[i] != l[j]
  }

  /** Every guild's allow-list is free of duplicates. */
  predicate ChannelListsDistinct(servers: Servers) {
    forall gid :: gid in servers && servers[gid].likeChannels.Some? ==>
      NoDuplicates(servers[gid].likeChannels.value)
  }

  /** The index `list.remove` deletes at: the first occurrence. */
  function FirstIndex(l: seq<string>, x: string): (i: nat)
    requires x in l
    ensures i < |l| && l[i] == x && x !in l[..i]
  {
    if l[0] == x then 0
    else
      assert l == [l[0]] + l[1..];
      1 + FirstIndex(l[1..], x)
  }

  /** `list.remove(x)`: drops the first occurrence of `x`. */
  function RemoveFirst(l: seq<string>, x: string): (r: seq<string>)
    requires x in l
    ensures |r| == |l| - 1
    ensures forall d :: d != x ==> (d in r <==> d in l)
  {
    var i := FirstIndex(l, x);
    assert l == l[..i] + [x] + l[i + 1..];
    l[..i] + l[i + 1..]
  }

  /** The toggle of `set_like_channel`: remove the channel when listed, append it otherwise. */
  function Toggled(l: seq<string>, c: string): seq<string> {
    if c in l then RemoveFirst(l, c) else l + [c]
  }

  /** The servers after toggling channel `c` in guild `gid`; missing entries are created first. */
  function ToggledServers(servers: Servers, gid: string, c: string): (r: Servers)
    ensures r.Keys == servers.Keys + {gid}
    ensures forall g :: g in servers && g != gid ==> r[g] == servers[g]
    ensures r[gid].likeChannels == Some(Toggled(LikeChannels(servers, gid), c))
  {
    servers[gid := ServerConfig(Some(Toggled(LikeChannels(servers, gid), c)))]
  }

  /**
   * Toggling flips the toggled channel's membership (removal needs the list
   * to hold it once) and leaves every other channel's membership alone.
   */
  lemma ToggleFlipsOnlyThatChannel(l: seq<string>, c: string)
    ensures c !in l ==> c in Toggled(l, c)
    ensures NoDuplicates(l) && c in l ==> c !in Toggled(l, c)
    ensures forall d :: d != c ==> (d in Toggled(l, c) <==> d in l)
  {
    if c in l {
      var i := FirstIndex(l, c);
      assert Toggled(l, c) == l[..i] + l[i + 1..];
    }
  }

  /** Deleting one position of a list without duplicates leaves none. */
  lemma DeleteKeepsNoDuplicates(l: seq<string>, i: nat)
    requires NoDuplicates(l) && i < |l|
    ensures NoDuplicates(l[..i] + l[i + 1..])
  {
    var r := l[..i] + l[i + 1..];
    forall p, q | 0 <= p < q < |r| ensures r[p] != r[q] {
      var p' := if p < i then p else p + 1;
      var q' := if q < i then q else q + 1;
      assert r[p] == l[p'];
      assert r[q] == l[q'];
    }
  }

  /** Appending a channel that is not listed leaves no duplicates. */
  lemma AppendKeepsNoDuplicates(l: seq<string>, c: string)
    requires NoDuplicates(l) && c !in l
    ensures NoDuplicates(l + [c])
  {
    var r := l + [c];
    forall p, q | 0 <= p < q < |r| ensures r[p] != r[q] {
      assert r[p] == l[p];
    }
  }

  /** Toggling keeps an allow-list free of duplicates. */
  lemma ToggleKeepsNoDuplicates(l: seq<string>, c: string)
    requires NoDuplicates(l)
    ensures NoDuplicates(Toggled(l, c))
  {
    if c in l {
      var i := FirstIndex(l, c);
      DeleteKeepsNoDuplicates(l, i);
    } else {
      AppendKeepsNoDuplicates(l, c);
    }
  }

  /** Toggling a channel that is not listed, twice, gives back the very same list. */
  lemma ToggleTwiceRestoresList(l: seq<string>, c: string)
    requires c !in l
    ensures Toggled(Toggled(l, c), c) == l
  {
    var l' := l + [c];
    assert c in l';
    var i := FirstIndex(l', c);
    assert l'[..i] == l[..i];
    assert i == |l|;
    assert l'[..i] + l'[i + 1..] == l;
  }

  /**
   * Toggling a channel twice gives back a list with the same members, and so
   * an empty list exactly when the original was empty, when the list had no
   * duplicates. (A listed channel moves to the end.)
   */
  lemma ToggleTwiceSameMembers(l: seq<string>, c: string)
    requires NoDuplicates(l)
    ensures forall d :: d in Toggled(Toggled(l, c), c) <==> d in l
    ensures Toggled(Toggled(l, c), c) == [] <==> l == []
  {
    var l1 := Toggled(l, c);
    var l2 := Toggled(l1, c);
    ToggleFlipsOnlyThatChannel(l, c);
    ToggleKeepsNoDuplicates(l, c);
    ToggleFlipsOnlyThatChannel(l1, c);
    if l != [] {
      assert l[0] in l2;
    }
    if l2 != [] {
      assert l2[0] in l;
    }
  }

  /**
   * Without the no-duplicates condition, toggling twice need not restore a
   * guild: a list holding one channel twice loses both copies, and the guild
   * that allowed only that channel then allows every channel.
   */
  lemma ToggleTwiceWithDuplicateEmpties()
    ensures Toggled(Toggled(["5", "5"], "5"), "5") == []
  {
    assert FirstIndex(["5", "5"], "5") == 0;
    assert Toggled(["5", "5"], "5") == ["5"];
    assert FirstIndex(["5"], "5") == 0;
  }

  /**
   * Toggling the same channel twice gives back every guild's permissions,
   * for every channel, when that guild's list had no duplicates. (A guild
   * that had no entry keeps an empty list, which allows every channel just
   * as the missing entry did.)
   */
  lemma ToggleTwiceRestoresPermissions(servers: Servers, gid: string, c: string,
                                      guild: Option<nat>, channel: nat)
    requires NoDuplicates(LikeChannels(servers, gid))
    ensures ChannelAllowed(ToggledServers(ToggledServers(servers, gid, c), gid, c), guild, channel)
         == ChannelAllowed(servers, guild, channel)
  {
    var twice := ToggledServers(ToggledServers(servers, gid, c), gid, c);
    if guild.Some? {
      var g := Decimal(guild.value);
      if g == gid {
        var l := LikeChannels(servers, gid);
        assert LikeChannels(twice, gid) == Toggled(Toggled(l, c), c);
        ToggleTwiceSameMembers(l, c);
      } else {
        assert LikeChannels(twice, g) == LikeChannels(servers, g);
      }
    }
  }

  /** Toggling keeps every guild's allow-list free of duplicates. */
  lemma ToggleKeepsListsDistinct(servers: Servers, gid: string, c: string)
    requires ChannelListsDistinct(servers)
    ensures ChannelListsDistinct(ToggledServers(servers, gid, c))
  {
    ToggleKeepsNoDuplicates(LikeChannels(servers, gid), c);
  }

  /**
   * The first channel added to a guild that allowed everything turns the
   * guild into an allow-list of that one channel: every other channel of the
   * guild is now refused.
   */
  lemma FirstChannelRestrictsGuild(servers: Servers, guild: nat, c: nat, channel: nat)
    requires LikeChannels(servers, Decimal(guild)) == []
    ensures ChannelAllowed(ToggledServers(servers, Decimal(guild), Decimal(c)), Some(guild), channel)
        <==> channel == c
  {
    var after := ToggledServers(servers, Decimal(guild), Decimal(c));
    assert LikeChannels(after, Decimal(guild)) == [Decimal(c)];
    if Decimal(channel) == Decimal(c) {
      DecimalInjective(channel, c);
    }
  }
}
