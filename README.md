# Hetzner Cloud VM operator: a verified model

This Dafny project models `HetznerCloudOperator`, the class that wraps the Hetzner Cloud
client for the masscan-as-a-service scan workers. It covers registering and deleting SSH
keys, provisioning a server with every registered key, deleting a server by name, and the
two purge sweeps. The first sweep deletes every server older than a maximum age. The second
deletes the servers that carry a `key=value` ownership label and whose `delete_after` label
has passed.

The provider's project is held in memory by the class `VmOperator.HetznerCloudOperator`:

- `servers` is the server listing, in the order the provider lists it. The order matters
  because a sweep that fails part-way keeps the deletions it already made and never
  reaches the later servers. Names are unique in the listing. That is `Valid()`, and every
  method keeps it.
- `sshKeys` maps each registered key name to its public key and labels.

Instants are integers (UTC seconds). The clock is an argument (`now`). So is the reading of
a `delete_after` value as an ISO 8601 timestamp (`parse`). That reading yields an aware
instant, a naive one (no zone) or a parse failure. Exceptions become values:
`Outcome<Error>` and `Result<Server, Error>`.

Files:

- `wrappers.dfy`: `Option`, `Result`, `Outcome`.
- `selector.dfy`: Python's `str.split` for a one-character separator, and the selector
  unpacking `label_key, label_value = label.split("=")`.
- `fleet.dfy`: servers, keys, timestamps and errors; deleting one server from the listing
  (`Without`); the reference definitions of both sweeps (`AfterAgePurge`, `ExpiryVerdict`,
  `ExpirySweep`); and the lemmas about them.
- `operator.dfy`: the class. Each public method is imperative and is proved against the
  reference definitions. The two sweeps are loops over a snapshot of the listing. Their
  invariants state that the processed prefix has been swept and the rest is untouched.

Two points of the code that the model keeps as they are:

- `label.split("=")` must yield exactly two parts, so a selector with no `=` or with two
  or more is refused before any server is visited.
- A naive `delete_after` is not read as UTC (see Findings).

## Model

| member | source | states |
|---|---|---|
| `Selector.Split` | masscan_as_a_service/vm_operator/hetzner_cloud_operator.py:69 | `split("=")` gives one more piece than the string has `=` characters, and no piece contains `=` |
| `Selector.JoinSplit` | masscan_as_a_service/vm_operator/hetzner_cloud_operator.py:69 | joining the pieces with `=` gives back the selector exactly |
| `Selector.ParseSelector` | masscan_as_a_service/vm_operator/hetzner_cloud_operator.py:69 | the selector unpacks into key and value if and only if it holds exactly one `=`; the selector is then `key=value`, with no `=` in either part |
| `Selector.SelectorRoundTrip` | masscan_as_a_service/vm_operator/hetzner_cloud_operator.py:69 | every `key=value` with no `=` in key or value is read back as that same pair |
| `Fleet.Without` | masscan_as_a_service/vm_operator/hetzner_cloud_operator.py:84-89 | after deleting a server, the listing holds exactly the servers with other names, and it never grows |
| `Fleet.WithoutNames` | masscan_as_a_service/vm_operator/hetzner_cloud_operator.py:84-89 | deleting removes exactly that name from the set of listed names |
| `Fleet.WithoutAbsent` | masscan_as_a_service/vm_operator/hetzner_cloud_operator.py:50-52 | deleting a name that is not listed leaves the listing unchanged |
| `Fleet.WithoutIdempotent` | masscan_as_a_service/vm_operator/hetzner_cloud_operator.py:46-52 | deleting the same name twice gives the same listing as deleting it once |
| `Fleet.WithoutSplit` | masscan_as_a_service/vm_operator/hetzner_cloud_operator.py:84-89 | deleting a uniquely named server leaves the servers before and after it in place and in order |
| `Fleet.WithoutDistinct` | masscan_as_a_service/vm_operator/hetzner_cloud_operator.py:50-52 | deleting keeps names unique and removes exactly one server when the name is listed (none otherwise) |
| `Fleet.PastMaxAge` | masscan_as_a_service/vm_operator/hetzner_cloud_operator.py:61 | the cutoff `now - maxAge` lies strictly after creation exactly when the server is strictly older than `maxAge` (its meaning for the sweep is `AgePurgeSurvivors`) |
| `Fleet.AfterAgePurge` | masscan_as_a_service/vm_operator/hetzner_cloud_operator.py:60-62 | reference definition of the age sweep: servers visited in order, each past the maximum age dropped; the listing never grows (its meaning is given by `AgePurgeSurvivors`) |
| `Fleet.AgePurgeSurvivors` | masscan_as_a_service/vm_operator/hetzner_cloud_operator.py:60-62 | after the age sweep, the remaining servers are exactly the listed ones with `created >= now - maxAge`; labels play no part |
| `Fleet.AgePurgeBoundary` | masscan_as_a_service/vm_operator/hetzner_cloud_operator.py:61 | a server created exactly at `now - maxAge` is kept; one created a second earlier is deleted |
| `Fleet.AgePurgeIdempotent` | masscan_as_a_service/vm_operator/hetzner_cloud_operator.py:60-62 | a second age sweep at the same instant deletes nothing more |
| `Fleet.AgePurgeStep` | masscan_as_a_service/vm_operator/hetzner_cloud_operator.py:60-62 | one loop iteration: deleting the visited server if it is past the maximum age turns "prefix swept, rest untouched" at `i` into the same at `i + 1` |
| `Fleet.Selected` | masscan_as_a_service/vm_operator/hetzner_cloud_operator.py:73 | the server is selected exactly when its labels hold the selector's key with the selector's value (`SweepSparesUnselected` gives its effect) |
| `Fleet.ExpiryVerdict` | masscan_as_a_service/vm_operator/hetzner_cloud_operator.py:73-80 | one server's verdict: kept when unselected or without `delete_after`; an error naming the server on an unparsable value or (as written) a naive one, and on nothing else; otherwise expired exactly when `now` is strictly past `delete_after` |
| `Fleet.ExpirySweep` | masscan_as_a_service/vm_operator/hetzner_cloud_operator.py:71-82 | reference definition of the label-expiry sweep over the listing: it stops at the first server whose verdict is an error; the listing never grows (its meaning is given by the lemmas below) |
| `Fleet.SweepDeletesOnlyExpired` | masscan_as_a_service/vm_operator/hetzner_cloud_operator.py:71-82 | the sweep adds no server, and every server whose verdict is not "expire" is still listed afterwards, whether or not the sweep failed |
| `Fleet.SweepStep` | masscan_as_a_service/vm_operator/hetzner_cloud_operator.py:71-82 | one loop iteration without error: deleting the visited server if it is expired turns "prefix swept, rest untouched" at `i` into the same at `i + 1` |
| `Fleet.CompletedSweepSurvivors` | masscan_as_a_service/vm_operator/hetzner_cloud_operator.py:71-82 | after a sweep that ran to the end, the remaining servers are exactly the listed ones not judged expired |
| `Fleet.SweepFailsIffSomeAbort` | masscan_as_a_service/vm_operator/hetzner_cloud_operator.py:76-80 | the sweep fails if and only if some listed server is selected and has a `delete_after` that is unparsable or (as written) naive |
| `Fleet.SweepStaysFailed` | masscan_as_a_service/vm_operator/hetzner_cloud_operator.py:71-82 | after a failure, every later server is left listed, in order, and the failure is what is reported |
| `Fleet.SweepStopsAtFirstAbort` | masscan_as_a_service/vm_operator/hetzner_cloud_operator.py:71-82 | the first failing server ends the sweep: the servers before it are swept, it and all later servers stay listed, and its error is reported |
| `Fleet.SweepSparesUnselected` | masscan_as_a_service/vm_operator/hetzner_cloud_operator.py:73 | a server without the selector's key, or with another value for it, is never deleted, whatever its age or `delete_after` |
| `Fleet.SweepSparesMissingDeleteAfter` | masscan_as_a_service/vm_operator/hetzner_cloud_operator.py:74 | a server without a `delete_after` label is never deleted by the expiry sweep |
| `Fleet.ExpiredServerStaysDeleted` | masscan_as_a_service/vm_operator/hetzner_cloud_operator.py:71-82 | a uniquely listed server that the sweep reaches and judges expired is gone afterwards, even when a later server stops the sweep |
| `Fleet.SweepExpiresAwareStrictly` | masscan_as_a_service/vm_operator/hetzner_cloud_operator.py:80-82 | a selected server with a zoned `delete_after` equal to or later than `now` is kept; one strictly before `now` is deleted whenever the sweep reaches it, whether or not a later server stops the sweep |
| `Fleet.NaiveDeleteAfterStopsSweep` | masscan_as_a_service/vm_operator/hetzner_cloud_operator.py:77-80 | as written, reaching a selected server with a naive `delete_after` fails the sweep with the comparison error; that server and all later ones stay listed, and earlier deletions stand |
| `Fleet.NaiveExpiredServerSurvives` | masscan_as_a_service/vm_operator/hetzner_cloud_operator.py:75-82 | for a selected server with naive `delete_after` 2020-01-01T00:00:00 and a later `now`: as written the sweep fails and the server stays; read as UTC it is deleted and the sweep completes |
| `Fleet.UtcSweepFailsOnlyOnMalformed` | masscan_as_a_service/vm_operator/hetzner_cloud_operator.py:75-78 | with a naive `delete_after` read as UTC, the sweep can fail only on a value that is not a timestamp |
| `Fleet.UtcSweepExpiresNaiveStrictly` | masscan_as_a_service/vm_operator/hetzner_cloud_operator.py:75-82 | read as UTC, a naive `delete_after` is handled like a zoned one: kept while not before `now`, deleted when strictly before it and the sweep reaches it |
| `VmOperator.HetznerCloudOperator.constructor` | masscan_as_a_service/vm_operator/hetzner_cloud_operator.py:14-16 | the operator sees the project's existing servers and keys |
| `VmOperator.HetznerCloudOperator.GetServerByName` | masscan_as_a_service/vm_operator/hetzner_cloud_operator.py:50 | finds nothing exactly when the name is not listed; otherwise returns a listed server with that name |
| `VmOperator.HetznerCloudOperator.DeleteSshKey` | masscan_as_a_service/vm_operator/hetzner_cloud_operator.py:18-24 | removes exactly that key name; a missing key leaves the keys unchanged; servers are untouched |
| `VmOperator.HetznerCloudOperator.AddNewSshKey` | masscan_as_a_service/vm_operator/hetzner_cloud_operator.py:26-30 | registers the key under its name with its material and labels; a name already in use is refused and nothing changes |
| `VmOperator.HetznerCloudOperator.CreateVm` | masscan_as_a_service/vm_operator/hetzner_cloud_operator.py:32-44 | appends one server with the given name, type, image and labels, the creation instant and every key registered at call time; existing servers and keys are unchanged; returns the server once the action succeeds, a provisioning error (server kept) if it fails, and a name clash with nothing changed |
| `VmOperator.HetznerCloudOperator.DeleteServer` | masscan_as_a_service/vm_operator/hetzner_cloud_operator.py:84-89 | given a listed server, the listing becomes `Without(old listing, name)`; keys are unchanged |
| `VmOperator.HetznerCloudOperator.DeleteVm` | masscan_as_a_service/vm_operator/hetzner_cloud_operator.py:46-52 | an unlisted name changes nothing; otherwise exactly that server is removed (one fewer) and the others stay, in order |
| `VmOperator.HetznerCloudOperator.PurgeOldVms` | masscan_as_a_service/vm_operator/hetzner_cloud_operator.py:54-62 | the listing becomes `AfterAgePurge(old listing, now, maxAge)`; keys are unchanged |
| `VmOperator.HetznerCloudOperator.PurgeExpiredVms` | masscan_as_a_service/vm_operator/hetzner_cloud_operator.py:64-82 | a malformed selector fails before any server is visited and changes nothing; otherwise the listing and outcome are those of `ExpirySweep` with naive values left naive |
| `VmOperator.HetznerCloudOperator.PurgeExpiredVmsNaiveAsUtc` | masscan_as_a_service/vm_operator/hetzner_cloud_operator.py:64-82 | corrected sweep: the same as `PurgeExpiredVms` but with a naive `delete_after` read as UTC |
| `VmOperator.HetznerCloudOperator.SweepExpiredVms` | masscan_as_a_service/vm_operator/hetzner_cloud_operator.py:71-82 | the sweep loop: the listing and outcome become those of `ExpirySweep` on the old listing; keys are unchanged |

## Left out

- The hcloud `Client`, its HTTP calls and the API token. The project's state is the
  in-memory listing and key map.
- `ServerType(...)` and `Image(...)`: the server type and image are kept as plain names.
- `wait_until_finished` polling. The create action's terminal state is an argument
  (`ActionStatus`), so the model cannot express a call that blocks without end.
- `datetime.fromisoformat`, `pytz` and zone arithmetic. The reading of a `delete_after`
  value is an argument. An aware value arrives already converted to UTC seconds.
- The clock. `purge_old_vms` reads it once per listed server (line 61); `purge_expired_vms`
  reads it once per selected server whose `delete_after` parsed (line 80). The model uses
  one instant for the whole sweep.
- Sub-second precision and fractional `max_age`: instants and ages are whole integers.
- PurgeOldVms: does not model the `OverflowError` that `now - timedelta(seconds=max_age)`
  raises at the first server when the cutoff falls outside `datetime`'s years 1 to 9999 (or
  `max_age` exceeds `timedelta`'s range); with unbounded integers every cutoff is defined,
  so such a call deletes according to `AfterAgePurge` instead of failing with nothing deleted.
- Logging.
- Concurrent sweeps from other processes. The listing is never changed by anyone else
  during a call, so every deletion targets a listed server (`DeleteServer` requires it);
  the error the client raises for a server already gone is not modelled.
- Provider-side refusals other than a name clash, such as an unknown server type or image,
  quota limits, or duplicate public-key material. The name-clash refusals for keys and
  servers are the provider's, not the operator's; they are modelled as `NameTaken`.
- `CreateVm`: the attached keys are recorded by name. The full key records are not copied
  onto the server.

## Findings

| source | as written | input that shows it | evidently intended | confidence | as-written member | corrected member |
|---|---|---|---|---|---|---|
| masscan_as_a_service/vm_operator/hetzner_cloud_operator.py:77-80 | the result of `vm_delete_after.replace(tzinfo=timezone.utc)` is thrown away, so a naive `delete_after` stays naive, comparing it with the aware `now` raises, and the sweep stops | a server labelled with the selector and `delete_after=2020-01-01T00:00:00`, swept at any later instant | a naive `delete_after` is read as UTC (the comment at line 75 says so): the server is deleted and the sweep goes on | high; not executed | `Fleet.NaiveExpiredServerSurvives` | `VmOperator.HetznerCloudOperator.PurgeExpiredVmsNaiveAsUtc` |

`PurgeExpiredVms` stays the model of the code as written. The corrected sweep is
`PurgeExpiredVmsNaiveAsUtc`. Both share the loop `SweepExpiredVms`. For the corrected
reading, `UtcSweepFailsOnlyOnMalformed` and `UtcSweepExpiresNaiveStrictly` prove the
intended behaviour.
