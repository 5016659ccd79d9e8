/**
 * The command arguments shared by `like`, `auto_like` and `stop_auto_like`:
 * the player UID and server region checks, the region flag lookup and the
 * `"{uid}_{server}_{channel}"` key under which an auto-like task is kept.
 */
module Regions {
  import opened Wrappers
  import opened Text

  /** The regions the commands accept, in the order the error message lists them. */
  const ValidServers: seq<string> := ["IND", "BD", "BR"]

  /** The flag `get_server_flag` shows next to a region name. */
  datatype Flag = IndiaFlag | BangladeshFlag | BrazilFlag | GlobeFlag

  datatype InputError = InvalidUid | InvalidServer

  /** A player UID the commands accept: only digits, at least six of them. */
  predicate ValidUid(uid: string) {
    IsDigitString(uid) && |uid| >= 6
  }

  /** Flag lookup by upper-cased region; unknown regions get the globe. */
  function ServerFlag(server: string): (f: Flag)
    ensures f != GlobeFlag <==> Upper(server) in ValidServers
    ensures f == IndiaFlag <==> Upper(server) == "IND"
    ensures f == BangladeshFlag <==> Upper(server) == "BD"
    ensures f == BrazilFlag <==> Upper(server) == "BR"
  {
    match Upper(server)
    case "IND" => IndiaFlag
    case "BD" => BangladeshFlag
    case "BR" => BrazilFlag
    case _ => GlobeFlag
  }

  /**
   * The flag of a region that is already upper-cased, as the key and the
   * listing hold it, is the flag of the region as typed.
   */
  lemma ServerFlagOfUpper(server: string)
    ensures ServerFlag(Upper(server)) == ServerFlag(server)
  {
    UpperIdempotent(server);
  }

  /**
   * The UID check, then the server check; on success the region in the
   * upper-cased form the task key and the probe use.
   */
  function ValidateInput(uid: string, server: string): (r: Result<string, InputError>)
    ensures r.Ok? <==> (|uid| >= 6 && (forall i :: 0 <= i < |uid| ==> '0' <= uid[i] <= '9')
                        && Upper(server) in ValidServers)
    ensures r.Ok? ==> r.value == Upper(server) && r.value in ValidServers && '_' !in r.value
    ensures r == Err(InvalidUid) <==> !ValidUid(uid)
    ensures r == Err(InvalidServer) <==> ValidUid(uid) && Upper(server) !in ValidServers
  {
    if !IsDigitString(uid) || |uid| < 6 then Err(InvalidUid)
    else if Upper(server) !in ValidServers then Err(InvalidServer)
    else Ok(Upper(server))
  }

  /** `f"{uid}_{server}_{channel_id}"`. */
  function TaskKey(uid: string, server: string, channel: nat): string {
    uid + "_" + server + "_" + Decimal(channel)
  }

  /**
   * `key.rsplit('_', 2)` recovers the three parts of a task key, and
   * `int(channel_id)` the channel, whenever the region has no underscore.
   */
  lemma TaskKeySplit(uid: string, server: string, channel: nat)
    requires '_' !in server
    ensures RSplit(TaskKey(uid, server, channel), '_', 2) == [uid, server, Decimal(channel)]
    ensures DecimalValue(Decimal(channel)) == channel
  {
    var d := Decimal(channel);
    assert '_' !in d;
    assert TaskKey(uid, server, channel) == uid + ['_'] + server + ['_'] + d;
    RSplitThree(uid, server, d, '_');
    DecimalRoundTrip(channel);
  }

  /**
   * A key built from a UID and a region that are free of underscores
   * determines them and the channel: no other triple yields the same key.
   */
  lemma TaskKeyInjective(uid: string, server: string, channel: nat,
                         uid': string, server': string, channel': nat)
    requires '_' !in uid && '_' !in server
    requires TaskKey(uid, server, channel) == TaskKey(uid', server', channel')
    ensures uid == uid' && server == server' && channel == channel'
  {
    var key := TaskKey(uid, server, channel);
    var d, d' := Decimal(channel), Decimal(channel');
    assert '_' !in d && '_' !in d' by {
      forall i | 0 <= i < |d| ensures d[i] != '_' { assert IsDigit(d[i]); }
      forall i | 0 <= i < |d'| ensures d'[i] != '_' { assert IsDigit(d'[i]); }
    }
    var head, head' := uid + ['_'] + server, uid' + ['_'] + server';
    assert key == head + ['_'] + d;
    assert key == head' + ['_'] + d';
    LastSeparator(head, '_', d);
    LastSeparator(head', '_', d');
    assert |head| == |head'|;
    assert head == key[..|head|] == head';
    assert d == key[|head| + 1..] == d';
    DecimalInjective(channel, channel');
    assert head[|uid|] == '_' && head'[|uid'|] == '_';
    assert uid == head[..|uid|] == uid';
    assert server == head[|uid| + 1..] == server';
  }
}
