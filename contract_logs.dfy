/**
 * The contract-log buffer: replaced wholesale by the initial fetch, then
 * extended on each new block and cut to its last 100 entries.
 * The RPC results are inputs; a failed request is `None`.
 */
module ContractLogs {
  import opened Wrappers

  /** `LOGS_FETCH_LIMIT`. */
  const LogsFetchLimit: nat := 100

  /** `s.slice(-LOGS_FETCH_LIMIT)`: the last 100 entries, or all of them when there are fewer. */
  function KeepLast<L>(s: seq<L>): (r: seq<L>)
    ensures |r| == if |s| <= LogsFetchLimit then |s| else LogsFetchLimit
    ensures r == s[|s| - |r|..]
  {
    if |s| <= LogsFetchLimit then s else s[|s| - LogsFetchLimit..]
  }

  /** What a block update leaves: the old and new logs appended, cut to the last 100. */
  function AfterBlock<L>(prevLogs: seq<L>, newLogs: seq<L>): seq<L> {
    KeepLast(prevLogs + newLogs)
  }

  /** After a block update there are at most 100 logs, and nothing is dropped while they fit. */
  lemma AfterBlockBounds<L>(prevLogs: seq<L>, newLogs: seq<L>)
    ensures |AfterBlock(prevLogs, newLogs)| <= LogsFetchLimit
    ensures |prevLogs| + |newLogs| <= LogsFetchLimit ==> AfterBlock(prevLogs, newLogs) == prevLogs + newLogs
  {
  }

  /** When at most 100 logs arrive, all of them are kept, as the end of the buffer. */
  lemma NewLogsAreKept<L>(prevLogs: seq<L>, newLogs: seq<L>)
    requires |newLogs| <= LogsFetchLimit
    ensures var r := AfterBlock(prevLogs, newLogs);
            |newLogs| <= |r| && r[|r| - |newLogs|..] == newLogs
  {
    var s := prevLogs + newLogs;
    var r := AfterBlock(prevLogs, newLogs);
    assert r[|r| - |newLogs|..] == s[|s| - |newLogs|..];
    assert s[|s| - |newLogs|..] == newLogs;
  }

  /** The buffer kept by `useContractLogs`. */
  class LogBuffer<L> {
    var logs: seq<L>
    var loading: bool

    constructor ()
      ensures logs == [] && !loading
    {
      logs := [];
      loading := false;
    }

    /** `fetchLogs`: the fetched logs replace the buffer, untruncated; a failed fetch changes nothing. */
    method FetchLogs(fetched: Option<seq<L>>)
      modifies this
      ensures fetched.Some? ==> logs == fetched.value
      ensures fetched.None? ==> logs == old(logs)
      ensures !loading
    {
      loading := true;
      if fetched.Some? {
        logs := fetched.value;
      }
      loading := false;
    }

    /** `onBlockNumber`: only a block number above the previous one fetches and appends. */
    method OnBlockNumber(blockNumber: int, prevBlockNumber: int, newLogs: Option<seq<L>>)
      modifies this
      ensures blockNumber > prevBlockNumber && newLogs.Some? ==> logs == AfterBlock(old(logs), newLogs.value)
      ensures blockNumber <= prevBlockNumber || newLogs.None? ==> logs == old(logs)
      ensures loading == old(loading)
    {
      if blockNumber > prevBlockNumber && newLogs.Some? {
        logs := AfterBlock(logs, newLogs.value);
      }
    }
  }
}
