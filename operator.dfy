/**
 * The operator that wraps the Hetzner Cloud client. The provider's project
 * is held in memory: the server listing and the registered SSH keys. Every
 * public operation changes that state as the corresponding client calls do.
 * Instants are passed in, as is the reading of `delete_after` labels.
 */
module VmOperator {
  import opened Wrappers
  import opened Fleet
  import Selector

  /** Terminal state of the provider's asynchronous create action. */
  datatype ActionStatus = Succeeded | Failed

  class HetznerCloudOperator {
    var servers: seq<Server>            // the project's servers, in listing order
    var sshKeys: map<string, SshKey>    // the project's SSH keys, by name

    ghost predicate Valid()
      reads this
    {
      DistinctNames(servers)
    }

    /** Connects to a project holding the given servers and keys. */
    constructor (existingServers: seq<Server>, existingKeys: map<string, SshKey>)
      requires DistinctNames(existingServers)
      ensures Valid()
      ensures servers == existingServers && sshKeys == existingKeys
    {
      servers := existingServers;
      sshKeys := existingKeys;
    }

    /** `servers.get_by_name`: the listed server with that name, if any. */
    method GetServerByName(name: string) returns (r: Option<Server>)
      ensures r.None? <==> name !in Names(servers)
      ensures r.Some? ==> r.value in servers && r.value.name == name
    {
      var i := 0;
      while i < |servers|
        invariant 0 <= i <= |servers|
        invariant forall j :: 0 <= j < i ==> servers[j].name != name
      {
        if servers[i].name == name {
          return Some(servers[i]);
        }
        i := i + 1;
      }
      return None;
    }

    /** Deletes the SSH key with that name; a missing key is not an error. */
    method DeleteSshKey(keyName: string)
      modifies this
      ensures servers == old(servers)
      ensures sshKeys == old(sshKeys) - {keyName}
      ensures keyName !in old(sshKeys) ==> sshKeys == old(sshKeys)
    {
      if keyName in sshKeys {
        sshKeys := sshKeys - {keyName};
      }
    }

    /** Registers a new SSH key; the provider refuses a name already in use. */
    method AddNewSshKey(keyName: string, publicKey: string, labels: Labels) returns (r: Outcome<Error>)
      modifies this
      ensures servers == old(servers)
      ensures keyName in old(sshKeys) ==> r == Fail(NameTaken(keyName)) && sshKeys == old(sshKeys)
      ensures keyName !in old(sshKeys) ==>
                r == Pass && sshKeys == old(sshKeys)[keyName := SshKey(publicKey, labels)]
    {
      if keyName in sshKeys {
        return Fail(NameTaken(keyName));
      }
      sshKeys := sshKeys[keyName := SshKey(publicKey, labels)];
      r := Pass;
    }

    /**
     * Provisions a server with every SSH key registered at the moment of the
     * call and waits for the create action to end. The provider refuses a
     * name already in use; a create action that fails leaves the server
     * listed and the call fails.
     */
    method CreateVm(vmName: string, vmModel: string, vmOsImage: string, labels: Labels,
                    now: int, action: ActionStatus) returns (r: Result<Server, Error>)
      requires Valid()
      modifies this
      ensures Valid() && sshKeys == old(sshKeys)
      ensures vmName in Names(old(servers)) ==>
                r == Failure(NameTaken(vmName)) && servers == old(servers)
      ensures vmName !in Names(old(servers)) ==>
                var vm := Server(vmName, now, vmModel, vmOsImage, old(sshKeys).Keys, labels);
                && servers == old(servers) + [vm]
                && r == (if action == Succeeded then Success(vm) else Failure(ProvisioningFailed(vmName)))
    {
      var existing := GetServerByName(vmName);
      if existing.Some? {
        return Failure(NameTaken(vmName));
      }
      var vm := Server(vmName, now, vmModel, vmOsImage, sshKeys.Keys, labels);
      DistinctSnoc(servers, vm);
      servers := servers + [vm];
      if action == Failed {
        return Failure(ProvisioningFailed(vmName));
      }
      r := Success(vm);
    }

    /** `_delete_vm`: the provider deletes a listed server. */
    method DeleteServer(vm: Server)
      requires Valid() && vm.name in Names(servers)
      modifies this
      ensures Valid() && sshKeys == old(sshKeys)
      ensures servers == Without(old(servers), vm.name)
    {
      WithoutDistinct(servers, vm.name);
      servers := Without(servers, vm.name);
    }

    /**
     * Deletes the server with that name, if one is listed: exactly that
     * server goes and the others stay, in order.
     */
    method DeleteVm(vmName: string)
      requires Valid()
      modifies this
      ensures Valid() && sshKeys == old(sshKeys)
      ensures servers == Without(old(servers), vmName)
      ensures vmName !in Names(old(servers)) ==> servers == old(servers)
      ensures vmName in Names(old(servers)) ==> |servers| == |old(servers)| - 1
      ensures vmName !in Names(servers)
    {
      WithoutDistinct(servers, vmName);
      WithoutNames(servers, vmName);
      var vm := GetServerByName(vmName);
      if vm.Some? {
        assert vm.value.name in Names(servers);
        DeleteServer(vm.value);
      } else {
        WithoutAbsent(servers, vmName);
      }
    }

    /**
     * Visits every listed server, whatever its labels, and deletes each one
     * created strictly before `now - maxAge`.
     */
    method PurgeOldVms(maxAge: int, now: int)
      requires Valid()
      modifies this
      ensures Valid() && sshKeys == old(sshKeys)
      ensures servers == AfterAgePurge(old(servers), now, maxAge)
    {
      var all := servers;
      var i := 0;
      while i < |all|
        invariant 0 <= i <= |all|
        invariant sshKeys == old(sshKeys)
        invariant Valid()
        invariant servers == AfterAgePurge(all[..i], now, maxAge) + all[i..]
      {
        var vm := all[i];
        if now - maxAge > vm.created {
          assert PastMaxAge(vm, now, maxAge);
          AgePurgeStep(all, i, now, maxAge);
          assert all[i..][0] == vm && vm.name in Names(servers);
          DeleteServer(vm);
        } else {
          assert !PastMaxAge(vm, now, maxAge);
          AgePurgeStep(all, i, now, maxAge);
        }
        i := i + 1;
      }
      assert all[..i] == all && all[i..] == [];
    }

    /**
     * Deletes every server carrying the selector's label whose
     * `delete_after` lies strictly before `now`. The selector must hold
     * exactly one `=`. As written, a naive `delete_after` stays naive, so
     * comparing it with the aware clock fails and stops the sweep.
     */
    method PurgeExpiredVms(selector: string, now: int, parse: string -> Timestamp)
      returns (r: Outcome<Error>)
      requires Valid()
      modifies this
      ensures Valid() && sshKeys == old(sshKeys)
      ensures Selector.ParseSelector(selector).None? ==>
                r == Fail(MalformedSelector(selector)) && servers == old(servers)
      ensures Selector.ParseSelector(selector).Some? ==>
                var (key, value) := Selector.ParseSelector(selector).value;
                var sweep := ExpirySweep(old(servers), ExpiryRule(key, value, now, parse, false));
                servers == sweep.survivors && r == sweep.outcome
    {
      var parsed := Selector.ParseSelector(selector);
      if parsed.None? {
        return Fail(MalformedSelector(selector));
      }
      var (key, value) := parsed.value;
      r := SweepExpiredVms(key, value, now, parse, false);
    }

    /**
     * The label-expiry purge with the naive `delete_after` read as UTC, as
     * the comment beside the parsing intends.
     */
    method PurgeExpiredVmsNaiveAsUtc(selector: string, now: int, parse: string -> Timestamp)
      returns (r: Outcome<Error>)
      requires Valid()
      modifies this
      ensures Valid() && sshKeys == old(sshKeys)
      ensures Selector.ParseSelector(selector).None? ==>
                r == Fail(MalformedSelector(selector)) && servers == old(servers)
      ensures Selector.ParseSelector(selector).Some? ==>
                var (key, value) := Selector.ParseSelector(selector).value;
                var sweep := ExpirySweep(old(servers), ExpiryRule(key, value, now, parse, true));
                servers == sweep.survivors && r == sweep.outcome
    {
      var parsed := Selector.ParseSelector(selector);
      if parsed.None? {
        return Fail(MalformedSelector(selector));
      }
      var (key, value) := parsed.value;
      r := SweepExpiredVms(key, value, now, parse, true);
    }

    /** The sweep loop shared by both readings of a naive `delete_after`. */
    method SweepExpiredVms(key: string, value: string, now: int, parse: string -> Timestamp,
                           naiveAsUtc: bool) returns (r: Outcome<Error>)
      requires Valid()
      modifies this
      ensures Valid() && sshKeys == old(sshKeys)
      ensures var sweep := ExpirySweep(old(servers), ExpiryRule(key, value, now, parse, naiveAsUtc));
              servers == sweep.survivors && r == sweep.outcome
    {
      ghost var rule := ExpiryRule(key, value, now, parse, naiveAsUtc);
      var all := servers;
      var i := 0;
      while i < |all|
        invariant 0 <= i <= |all|
        invariant sshKeys == old(sshKeys)
        invariant Valid()
        invariant ExpirySweep(all[..i], rule).outcome == Pass
        invariant servers == ExpirySweep(all[..i], rule).survivors + all[i..]
      {
        var vm := all[i];
        if key in vm.labels && vm.labels[key] == value {
          if DeleteAfterLabel in vm.labels {
            var deleteAfter := parse(vm.labels[DeleteAfterLabel]);
            if deleteAfter.Unparsable? {
              assert ExpiryVerdict(vm, rule) == Abort(MalformedDeleteAfter(vm.name));
              SweepStopsAtFirstAbort(all, rule, i);
              return Fail(MalformedDeleteAfter(vm.name));
            }
            if deleteAfter.Naive? && naiveAsUtc {
              deleteAfter := Aware(deleteAfter.instant);
            }
            if deleteAfter.Naive? {
              assert ExpiryVerdict(vm, rule) == Abort(NaiveDeleteAfter(vm.name));
              SweepStopsAtFirstAbort(all, rule, i);
              return Fail(NaiveDeleteAfter(vm.name));
            }
            if now > deleteAfter.instant {
              assert ExpiryVerdict(vm, rule) == Expire;
              SweepStep(all, i, rule);
              assert all[i..][0] == vm && vm.name in Names(servers);
              DeleteServer(vm);
            } else {
              assert ExpiryVerdict(vm, rule) == Retain;
              SweepStep(all, i, rule);
            }
          } else {
            assert ExpiryVerdict(vm, rule) == Retain;
            SweepStep(all, i, rule);
          }
        } else {
          assert ExpiryVerdict(vm, rule) == Retain;
          SweepStep(all, i, rule);
        }
        i := i + 1;
      }
      assert all[..i] == all && all[i..] == [];
      r := Pass;
    }
  }
}
