/**
 * The handling of one container lifecycle event (main.go, `handleEvent`):
 * decide whether the event is relevant, resolve its hostname, and issue at
 * most one put or delete against the key-value store.
 */
module Reconciler {
  import opened Wrappers
  import opened KeyFormat
  import opened Resolver

  /** A store call: write `value` at `key`, or remove `key`. */
  datatype Mutation = PutRecord(key: string, value: string) | DeleteRecord(key: string)

  /** The container that an event is about, with its labels as attributes. */
  datatype Actor = Actor(id: string, attributes: map<string, string>)

  /** A lifecycle event from the container runtime. */
  datatype Message = Message(id: string, action: string, actor: Actor)

  /** The attribute by which a container asks for a record. */
  const HostAttribute: string := "internaldns.host"

  /** Actions after which the record is written. */
  predicate IsCreate(action: string)
  {
    action == "start" || action == "create"
  }

  /** Actions after which the record is removed. */
  predicate IsRemove(action: string)
  {
    action == "stop" || action == "die" || action == "destroy"
  }

  /** The value stored for an address: the JSON object `{"host":"<ip>"}`, unescaped. */
  function HostRecord(ip: string): (record: string)
    ensures |record| == |ip| + 11
    ensures record[9..|record| - 2] == ip
  {
    "{\"host\":\"" + ip + "\"}"
  }

  /** Different addresses give different stored values. */
  lemma HostRecordInjective(ip1: string, ip2: string)
    requires HostRecord(ip1) == HostRecord(ip2)
    ensures ip1 == ip2
  {
    var r := HostRecord(ip1);
    assert ip1 == r[9..|r| - 2];
  }

  /** The records after a successful store call. */
  function Apply(records: map<string, string>, m: Mutation): (r: map<string, string>)
    ensures m.PutRecord? ==> m.key in r && r[m.key] == m.value
    ensures m.DeleteRecord? ==> m.key !in r
    ensures forall k :: k != m.key ==> (k in r <==> k in records) && (k in r ==> r[k] == records[k])
  {
    match m
    case PutRecord(key, value) => records[key := value]
    case DeleteRecord(key) => records - {key}
  }

  /**
   * The key-value store client, reduced to the records it holds. `calls`
   * logs every put and delete issued against it, whether or not it
   * succeeded. Whether a call fails is decided outside the model and given
   * as an argument.
   */
  class Store {
    var records: map<string, string>
    ghost var calls: seq<Mutation>

    constructor ()
      ensures records == map[] && calls == []
    {
      records := map[];
      calls := [];
    }

    /** `Put(key, value)`: on success the key holds the value; on failure nothing changes. */
    method Put(key: string, value: string, fail: bool) returns (ok: bool)
      modifies this
      ensures ok == !fail
      ensures records == if ok then Apply(old(records), PutRecord(key, value)) else old(records)
      ensures calls == old(calls) + [PutRecord(key, value)]
    {
      ok := !fail;
      if ok {
        records := records[key := value];
      }
      calls := calls + [PutRecord(key, value)];
    }

    /** `Delete(key)`: on success the key is gone; on failure nothing changes. */
    method Delete(key: string, fail: bool) returns (ok: bool)
      modifies this
      ensures ok == !fail
      ensures records == if ok then Apply(old(records), DeleteRecord(key)) else old(records)
      ensures calls == old(calls) + [DeleteRecord(key)]
    {
      ok := !fail;
      if ok {
        records := records - {key};
      }
      calls := calls + [DeleteRecord(key)];
    }
  }

  /**
   * The store call an event calls for, if any: none without the host
   * attribute, none when no suffix resolves the hostname, a put of the
   * host record on start/create, a delete on stop/die/destroy, and none
   * for any other action. Any call is at the hostname's formatted key.
   */
  ghost function Plan(hosts: HostTable, msg: Message): (p: Option<Mutation>)
    ensures p.Some? ==> HostAttribute in msg.actor.attributes
    ensures p.Some? ==> p.value.key == FormatHostname(msg.actor.attributes[HostAttribute])
  {
    if HostAttribute !in msg.actor.attributes then None
    else
      var hostname := msg.actor.attributes[HostAttribute];
      match Resolve(hosts, hostname)
      case NoSuffixMatch => None
      case Address(ip) =>
        if IsCreate(msg.action) then Some(PutRecord(FormatHostname(hostname), HostRecord(ip)))
        else if IsRemove(msg.action) then Some(DeleteRecord(FormatHostname(hostname)))
        else None
  }

  /**
   * The records after handling `msg`: the planned call applied, unless
   * there is none or it fails (a failure is only logged, never retried).
   */
  ghost function Reconcile(records: map<string, string>, hosts: HostTable, msg: Message, fails: bool)
    : (r: map<string, string>)
    ensures r != records ==> Plan(hosts, msg).Some? && !fails
    ensures forall k :: (k in r) != (k in records) ==> Plan(hosts, msg).Some? && k == Plan(hosts, msg).value.key
  {
    match Plan(hosts, msg)
    case None => records
    case Some(m) => if fails then records else Apply(records, m)
  }

  /**
   * `handleEvent(msg, c)`: issues exactly the planned call, so at most one
   * per event, and leaves the store as `Reconcile` says. `fails` is the
   * store's answer to that call.
   */
  method HandleEvent(msg: Message, c: Store, hosts: HostTable, fails: bool)
    modifies c
    ensures c.records == Reconcile(old(c.records), hosts, msg, fails)
    ensures Plan(hosts, msg).None? ==> c.calls == old(c.calls)
    ensures Plan(hosts, msg).Some? ==> c.calls == old(c.calls) + [Plan(hosts, msg).value]
  {
    if HostAttribute in msg.actor.attributes {
      var hostname := msg.actor.attributes[HostAttribute];
      var lookup := GetIPAddress(hosts, hostname);
      if lookup.NoSuffixMatch? {
        return;
      }
      if msg.action == "start" || msg.action == "create" {
        var value := HostRecord(lookup.ip);
        var ok := c.Put(FormatHostname(hostname), value, fails);
      }
      if msg.action == "stop" || msg.action == "die" || msg.action == "destroy" {
        var ok := c.Delete(FormatHostname(hostname), fails);
      }
    }
  }

  /**
   * An event is skipped, with no store call and no change, exactly when it
   * lacks the host attribute, its hostname matches no suffix, or its action
   * is none of start, create, stop, die and destroy.
   */
  lemma SkippedEvents(records: map<string, string>, hosts: HostTable, msg: Message, fails: bool)
    ensures Plan(hosts, msg).None? <==>
      || HostAttribute !in msg.actor.attributes
      || Resolve(hosts, msg.actor.attributes[HostAttribute]).NoSuffixMatch?
      || (!IsCreate(msg.action) && !IsRemove(msg.action))
    ensures Plan(hosts, msg).None? ==> Reconcile(records, hosts, msg, fails) == records
  {
  }

  /** A failed call leaves the records as they were. */
  lemma FailedCallChangesNothing(records: map<string, string>, hosts: HostTable, msg: Message)
    ensures Reconcile(records, hosts, msg, true) == records
  {
  }

  /** A start or create event stores the host record of the resolved address at the hostname's key. */
  lemma CreateWritesRecord(records: map<string, string>, hosts: HostTable, msg: Message, hostname: string, ip: string)
    requires HostAttribute in msg.actor.attributes && msg.actor.attributes[HostAttribute] == hostname
    requires Resolve(hosts, hostname) == Address(ip)
    requires IsCreate(msg.action)
    ensures Plan(hosts, msg) == Some(PutRecord(FormatHostname(hostname), HostRecord(ip)))
    ensures Reconcile(records, hosts, msg, false) == records[FormatHostname(hostname) := HostRecord(ip)]
  {
  }

  /** A stop, die or destroy event removes the hostname's key. */
  lemma RemoveDeletesRecord(records: map<string, string>, hosts: HostTable, msg: Message, hostname: string)
    requires HostAttribute in msg.actor.attributes && msg.actor.attributes[HostAttribute] == hostname
    requires Resolve(hosts, hostname).Address?
    requires IsRemove(msg.action)
    ensures Plan(hosts, msg) == Some(DeleteRecord(FormatHostname(hostname)))
    ensures FormatHostname(hostname) !in Reconcile(records, hosts, msg, false)
  {
  }

  /** Handling an event touches no key but the formatted key of its hostname. */
  lemma OnlyTheHostKeyChanges(records: map<string, string>, hosts: HostTable, msg: Message, fails: bool, k: string)
    requires HostAttribute in msg.actor.attributes ==> k != FormatHostname(msg.actor.attributes[HostAttribute])
    ensures k in Reconcile(records, hosts, msg, fails) <==> k in records
    ensures k in records ==> Reconcile(records, hosts, msg, fails)[k] == records[k]
  {
  }

  /** A successful put followed by a successful delete for one hostname leaves no record there. */
  lemma CreateThenRemoveLeavesNoRecord(
    records: map<string, string>, hosts: HostTable, created: Message, removed: Message, hostname: string)
    requires HostAttribute in created.actor.attributes && created.actor.attributes[HostAttribute] == hostname
    requires HostAttribute in removed.actor.attributes && removed.actor.attributes[HostAttribute] == hostname
    requires Resolve(hosts, hostname).Address?
    requires IsCreate(created.action) && IsRemove(removed.action)
    ensures FormatHostname(hostname) !in Reconcile(Reconcile(records, hosts, created, false), hosts, removed, false)
  {
    RemoveDeletesRecord(Reconcile(records, hosts, created, false), hosts, removed, hostname);
  }

  /** Two start events for one hostname leave the store as the second alone would: the last write wins. */
  lemma RepeatedCreateLastWriteWins(
    records: map<string, string>, hosts: HostTable, first: Message, second: Message, hostname: string)
    requires HostAttribute in first.actor.attributes && first.actor.attributes[HostAttribute] == hostname
    requires HostAttribute in second.actor.attributes && second.actor.attributes[HostAttribute] == hostname
    requires IsCreate(first.action) && IsCreate(second.action)
    ensures Reconcile(Reconcile(records, hosts, first, false), hosts, second, false)
         == Reconcile(records, hosts, second, false)
  {
  }
}
