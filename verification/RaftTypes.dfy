/**
 The values that openraft hands to the storage layer. JSON and bincode are
 taken as exact inverses, so a stored value is the value itself; a request
 body that does not decode as a key/value command is `Malformed`.
 */
module RaftTypes {
  import opened Wrappers

  type u64 = x: nat | x < 0x1_0000_0000_0000_0000

  const U64_MAX: u64 := 0xFFFF_FFFF_FFFF_FFFF

  datatype LogId = LogId(term: u64, nodeId: u64, index: u64)

  const DEFAULT_LOG_ID := LogId(0, 0, 0)

  datatype Request = Put(key: string, value: string) | Malformed(raw: seq<nat>)

  /** A joint or uniform voter configuration. */
  type Config = seq<set<nat>>

  datatype Payload = Blank | Normal(request: Request) | Membership(config: Config)

  datatype Entry = Entry(logId: LogId, payload: Payload)

  datatype StoredMembership = StoredMembership(logId: Option<LogId>, config: Config) {
    /** `log_id().unwrap_or_default().index`, the sort key of the membership history. */
    function Index(): nat {
      if logId.Some? then logId.value.index else DEFAULT_LOG_ID.index
    }
  }

  const DEFAULT_MEMBERSHIP := StoredMembership(None, [])

  /** The latest position at or below `j` that has a recorded membership. */
  ghost function LatestAt(history: imap<nat, StoredMembership>, j: nat): Option<nat> {
    if j in history then Some(j) else if j == 0 then None else LatestAt(history, j - 1)
  }

  /** `LatestAt` is the maximum of the recorded positions at or below `j`. */
  lemma {:induction false} LatestAtIsMaximum(history: imap<nat, StoredMembership>, j: nat)
    ensures match LatestAt(history, j)
            case None => forall i: nat :: i <= j ==> i !in history
            case Some(m) => m <= j && m in history && forall i: nat :: m < i <= j ==> i !in history
  {
    if j !in history && j > 0 {
      LatestAtIsMaximum(history, j - 1);
    }
  }

  /** Recording a later membership does not change the answer for an earlier position. */
  lemma {:induction false} LaterRecordIsIgnored(history: imap<nat, StoredMembership>, i: nat, m: StoredMembership,
                                                j: nat)
    requires j < i
    ensures LatestAt(history[i := m], j) == LatestAt(history, j)
  {
    if j !in history && j > 0 {
      LaterRecordIsIgnored(history, i, m, j - 1);
    }
  }
}
