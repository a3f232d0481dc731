# snowFlake ID generator, modelled in Dafny

This project models the core of `lypee/snowFlake`, a Go ID generator in the
Snowflake style. It covers four parts:

- **Snowflake** (`snowflake.dfy`): a `Worker` holds the last timestamp, its
  worker and datacenter IDs, and a per-millisecond sequence. `NextID`
  advances the sequence, or waits for the next millisecond when the
  sequence wraps, and packs the timestamp, datacenter ID, worker ID and
  sequence into one 64-bit ID.
- **Const** (`const.dfy`): the bit widths, masks, shift amounts, epoch and
  namespace paths. Lemmas state how the fields actually overlap: the
  worker shift is 12 while the sequence is 13 bits wide, and the
  datacenter field sits inside the worker field.
- **ZkServer** (`zkserver.dfy`): claiming a worker ID in a ZooKeeper
  namespace. The claim loop draws random candidates. It skips a candidate
  whose node `/IDMaker/Id-<n>` exists and otherwise creates that node. The
  module also removes all children of a path, removes one node, and shuts
  down. ZooKeeper is modelled as a `Namespace` class over a map from path
  to data. Each server call takes a fault flag that decides whether that
  call fails.
- **ErrCode** and **Utils** (`errcode.dfy`, `utils.dfy`): the error code
  table and `WithTrueErr`; `RandomNum` with its random draw as an
  input; big-endian `Int64ToBytes` and its inverse; `SpliceString`; and
  decimal `strconv.Itoa`.

`bits.dfy` (module `Bits`) holds the arithmetic the other modules share:
- two's-complement conversions between `int64` and `uint64`;
- left shift modulo 2^64;
- bitwise `|`, `&` and `^` on naturals, defined bit by bit;
- lemmas that split these operations at a power of two.

## Modelling choices

- Go's `int64` and `uint64` are unbounded integers here. `uint64(x)` is
  written out as `x mod 2^64`, and `<<` as multiplication modulo 2^64.
  Bitwise operators are a recursive function over the binary digits.
- The clock is an input. `Worker.NextID` takes the sequence of readings
  that `getMilliSeconds` would return:
  - `clock[0]` is the first reading;
  - the busy-wait after a sequence rollover reads the later entries;
  - the caller must supply a reading later than `LastStamp` whenever that
    wait can happen.
- `used` reports how many readings were taken.
- The ghost field `Issued` records every `(timestamp, sequence)` pair
  issued. The class invariant keeps that history strictly increasing in
  lexicographic order.
- Each random draw and each server failure is an input. They come as a
  sequence of `Probe`s (draw, `Exists` fails, `Create` fails), one per
  loop attempt. `RandomNum` takes the value that `rand.Intn` would return.
- The claim loop makes at most `MaxWorkerID/2` = 2047 attempts.
- `base.ErrorF` prints and then ends the process (`base/logger.go:44-53`).
  Every branch that logs with `ErrorF` therefore ends in `Exit`, not in
  the `return` written after it. This covers:
  - a failed `zk.Connect`;
  - a failed `Exists`;
  - a failed `Create`;
  - a failed delete in `RemoveNode`.
- Because a failed connect ends the process, the `StartConnErr.WithTrueErr`
  on line 75 of `server/zkServer/zkServer.go` is never reached.
- In `GetWorkerIdWithPool`, control reaches line 62 only when no attempt
  failed, so `err` is always nil there. `WithTrueErr` therefore always
  clears the cause of the shared `ConnErr`.
- `WithTrueErr` mutates a package-level `Err` through a pointer and
  returns that pointer. It is therefore a method of the class `ErrVar`,
  and the model returns the same object (`Shared`). `GetWorkerId`'s plain
  `return 0, common.ConnErr` returns a copy of the value (`Coded`).

Where the intended design and the code differ, the model follows the code:
- The intended layout has a 12-bit worker field above a 13-bit sequence, a
  time shift of 28, and no collisions between IDs. The code shifts the
  worker ID by 12 and the time by 25:
  - bit 12 is shared by the sequence and the worker ID;
  - the datacenter field lies inside the worker field.
- Because of that overlap, IDs do not decode back to their fields in
  general, and distinct inputs can share an ID (see OddWorkerCollision and
  WorkerDataCenterCollision).
- The comment calls `Twepoch` a 13-digit millisecond timestamp for
  2020-05-20, but the constant has 14 digits.
- Claim nodes are meant to be ephemeral. The code creates them with flag
  `0`, which makes them persistent.
- A failed create is meant to be retried. The code logs it with `ErrorF`,
  which ends the process.
- Candidates are meant to range over `[0, MaxWorkerID]`. `RandomNum(0,
  MaxWorkerID)` draws from `[0, 4094]`.
- Running out of attempts returns the generic `ConnErr`.
- `RemoveAllNode` returns `(false, ConnErr)` even after a listing that
  succeeded.
- `NextID` states the ID as the packed fields on unbounded integers. The
  time field's `timeStamp - Twepoch` is taken modulo 2^64 before the
  shift, which gives the same bits as Go's `int64` arithmetic followed by
  `uint64(id)`.

## Model

| member | source | states |
|---|---|---|
| Const.MaxOf | common/const.go:8-10 | `-1 ^ (-1 << bits)` is 2^bits − 1 |
| Const.MaxValues | common/const.go:8-10 | the maximum worker ID, datacenter ID and sequence are the all-ones values of 12, 3 and 13 bits |
| Const.ShiftAmounts | common/const.go:4-14 | the time shift is worker bits + sequence bits and the datacenter shift is datacenter bits + sequence bits; the worker shift is one less than the sequence width; the time shift is below the 28 bits of the three fields |
| Const.SequenceMaskIsModulo | common/const.go:10 | masking with MaxSequence is reduction modulo 8192 and never exceeds MaxSequence |
| Const.SequenceOverlapsWorker | common/const.go:10-14 | the sequence mask and the shifted worker mask share exactly bit 12 |
| Const.DataCenterOverlapsWorker | common/const.go:8-14 | the shifted datacenter mask is bits 16-18 and lies wholly inside the shifted worker mask |
| Const.PathPrefix | common/const.go:20-21 | the worker-node prefix is the worker path followed by `/Id-` |
| ErrCode.NewErr | common/errCode.go:11-16 | the new error has the given code and message and no underlying cause |
| ErrCode.TableEntries | common/errCode.go:28-36 | every predefined error starts with no cause; OpErr, ConnErr and StartConnErr have codes 10000-10002 and their own names as messages; NodeNameErr and PathLengthErr have 10004 and 10005 |
| ErrCode.CodesNotUnique | common/errCode.go:32-33 | ServersErr and InvalidPathErr are distinct errors with the same code 10003, and that is the only pair in the table sharing a code |
| ErrCode.ErrVar.WithTrueErr | common/errCode.go:23-26 | sets only the cause, keeps code and message, and returns the receiver itself |
| Utils.RandomNum | utils/utils.go:21-29 | on 64-bit inputs, an empty or zero-topped interval returns `max`; an interval of width at least 2^63 wraps `max - min` negative and panics in `rand.Intn`; otherwise the result is `min + draw`, in `[min, max)` |
| Utils.RandomNumBound | utils/utils.go:28 | for `min < max`, the 64-bit `max - min` is non-positive exactly when the true difference is at least 2^63 |
| Utils.RandomNumOnto | utils/utils.go:28 | on an interval that does not overflow, every value of `[min, max)` comes from exactly one draw |
| Utils.Int64ToBytes | utils/utils.go:32-36 | the encoding of an int64 is eight bytes |
| Utils.BytesToInt64 | utils/utils.go:32-36 | decoding eight big-endian bytes yields an int64 |
| Utils.DecodeEncode | utils/utils.go:32-36 | decoding the n-byte big-endian encoding of u < 256^n gives u back |
| Utils.EncodeDecode | utils/utils.go:32-36 | encoding a decoded byte sequence at its own length gives the bytes back |
| Utils.BigEndianAt | utils/utils.go:32-36 | byte i of the encoding is digit n−1−i of u in base 256 (most significant first) |
| Utils.Int64RoundTrip | utils/utils.go:32-36 | decoding `Int64ToBytes(n)` gives n for every int64 |
| Utils.BytesRoundTrip | utils/utils.go:32-36 | every 8-byte sequence is the encoding of the int64 it decodes to |
| Utils.SignByteFirst | utils/utils.go:32-36 | the first byte is the top byte of the two's-complement pattern, and it is at least 128 exactly when n is negative |
| Utils.SpliceString | utils/utils.go:39-45 | the result is the concatenation of all the strings in order, its length is the sum of their lengths, and no strings give "" |
| Utils.ConcatAppend | utils/utils.go:39-45 | concatenating two lists of strings in turn equals concatenating each and joining the results |
| Utils.ConcatLength | utils/utils.go:39-45 | the concatenation's length is the sum of the lengths |
| Utils.ConcatFew | server/zkServer/zkServer.go:119 | splicing two or three strings is their `+` |
| Utils.Itoa | server/zkServer/zkServer.go:41 | the decimal text of n is non-empty, all digits, without leading zero |
| Utils.ParseItoa | server/zkServer/zkServer.go:41 | reading the decimal text of n gives n back |
| Utils.ItoaInjective | server/zkServer/zkServer.go:41 | distinct IDs have distinct decimal texts |
| Snowflake.Clamp | snowflake.go:54-59 | an ID within `[0, max]` is kept; anything else becomes `max` |
| Snowflake.Worker.constructor | snowflake.go:53-68 | the worker and datacenter IDs are clamped to their maxima, the timestamp and sequence start at 0, and the history is empty |
| Snowflake.NextSequence | snowflake.go:88 | the masked increment adds one below MaxSequence and wraps MaxSequence to 0 |
| Snowflake.Worker.Tick | snowflake.go:82-98 | a reading behind LastStamp changes nothing and fails. The same millisecond increments the sequence, or on rollover waits for the first later reading and resets it to 0. A later millisecond resets the sequence to 0. In every success case the new (timestamp, sequence) pair is strictly after the old one and is appended to the history |
| Snowflake.Worker.NextID | snowflake.go:74-104 | as Tick, plus: a backwards clock yields the error message. Otherwise the ID is the packed new state, its low 12 bits are the sequence's, and the worker and datacenter IDs do not change |
| Snowflake.ComposeBound | snowflake.go:99-103 | every packed ID fits in 64 bits |
| Snowflake.ShiftedTime | snowflake.go:99 | the shifted time field is the epoch offset modulo 2^39, times 2^25 |
| Snowflake.ShiftedNode | snowflake.go:100-101 | in range, the shifted datacenter and worker IDs do not wrap |
| Snowflake.ComposeSplits | snowflake.go:99-101 | an ID is its 39-bit time part above bit 25 plus the node bits (datacenter, worker, sequence ORed), which stay below 2^25 |
| Snowflake.NodeLowBits | snowflake.go:100-101 | the node bits are the sequence's low 12 bits plus, above them, the datacenter, worker and top sequence bit ORed together |
| Snowflake.ComposeLowBits | snowflake.go:99-101 | an ID's low 12 bits are the sequence's low 12 bits |
| Snowflake.EvenWorkerNode | snowflake.go:100-101 | with an even worker ID the 13-bit sequence occupies bits 0-12 undisturbed |
| Snowflake.ComposeInjective | snowflake.go:99-101 | for an even worker ID and timestamps less than 2^39 ms apart, equal IDs mean equal timestamps and sequences |
| Snowflake.OddWorkerCollision | snowflake.go:99-101 | for an odd worker ID, sequences s and s + 4096 give the same ID in the same millisecond |
| Snowflake.WorkerDataCenterCollision | snowflake.go:99-101 | datacenter 1 with worker 0 and datacenter 0 with worker 16 give the same IDs |
| Snowflake.AppendIncreasing | snowflake.go:83-98 | appending a pair after the last one keeps the history strictly increasing |
| Snowflake.IssuedIdsDistinct | snowflake.go:81-103 | a worker with an even worker ID issues pairwise-distinct IDs from any strictly increasing history spanning less than 2^39 ms |
| Snowflake.OddWorkerRepeats | snowflake.go:87-101 | a worker with an odd worker ID can issue one ID twice within one millisecond |
| ZkServer.Namespace.Exists | server/zkServer/zkServer.go:42-46 | a successful probe reports whether the path is present, and changes nothing |
| ZkServer.Namespace.Create | server/zkServer/zkServer.go:51-55 | succeeds exactly when the call does not fail and the path is absent, and then adds the path with the data |
| ZkServer.Namespace.Delete | server/zkServer/zkServer.go:121 | succeeds exactly when the call does not fail and the path is present, and then removes only that path |
| ZkServer.Namespace.Children | server/zkServer/zkServer.go:112 | a successful listing returns each child name of the path exactly once |
| ZkServer.ChildPathOf | server/zkServer/zkServer.go:112-119 | the spliced path of a listed child is a node under the base path |
| ZkServer.ChildPathInjective | server/zkServer/zkServer.go:119 | distinct child names give distinct spliced paths |
| ZkServer.Candidate | server/zkServer/zkServer.go:40 | `RandomNum(0, MaxWorkerID)` never panics, and every candidate worker ID lies in `[0, MaxWorkerID)` |
| ZkServer.WorkerPathInjective | server/zkServer/zkServer.go:41 | distinct worker IDs have distinct node paths |
| ZkServer.ClaimFrom | server/zkServer/zkServer.go:80-101 | the loop makes at most MaxWorkerID/2 attempts. It runs out exactly when every attempt's path existed. It dies exactly when the last attempt's `Exists` failed, or its path was absent and its `Create` failed. It wins exactly when the last attempt's calls succeeded on an absent path; the ID is that candidate and its path now holds the data. Otherwise the namespace is unchanged. Every earlier candidate's path already existed |
| ZkServer.ClaimLoop | server/zkServer/zkServer.go:38-59 | the imperative loop ends, and leaves the namespace, as ClaimFrom says |
| ZkServer.GetWorkerId | server/zkServer/zkServer.go:66-104 | a failed connect ends the process; a claimed ID is returned with no error; a server failure ends the process; running out of attempts returns 0 with ConnErr |
| ZkServer.GetWorkerIdWithPool | server/zkServer/zkServer.go:29-63 | given the shared ConnErr, with a pooled connection, a claimed ID is returned and a failure ends the process. Without a connection, or out of attempts, the connection is put back and 0 is returned with the shared ConnErr, whose cause is cleared |
| ZkServer.RemoveAllNode | server/zkServer/zkServer.go:106-131 | always returns false. A failed listing returns the shared OpErr carrying the cause and changes no node. Otherwise OpErr is untouched: without a connection nothing changes; after a listing exactly the children whose delete succeeds are removed. Both return ConnErr |
| ZkServer.RemoveNode | server/zkServer/zkServer.go:134-152 | deletes only `basePath + nodePath` and returns true; a failed delete ends the process; without a connection it returns false with ConnErr |
| ZkServer.Shutdown | server/zkServer/zkServer.go:154-157 | removes exactly the deletable children of `/IDMaker` when they can be listed, leaving OpErr untouched; a failed listing changes no node and sets the shared OpErr's cause; without a connection nothing changes |

## Left out

- The mutexes (`Worker.mu`, `ZkServer.lock`) and `NextID`'s lock wrapper are not modelled, because calls here are sequential.
- Concurrency is not modelled.
- `getMilliSeconds`, `time.Now` and the seeding of `math/rand` are not modelled. Clock readings and random draws are inputs.
- The connection pool and the network are not modelled. Whether the pool holds a connection, and whether each server call fails, are inputs.
- ZooKeeper's own semantics are left out: sessions, ephemeral and sequential nodes, ACLs, versions, watches, and the parent-node hierarchy. For example, a delete of a node with children is not refused, and creating a path does not require its parent.
- Only the data of a node is kept. The node flags (`0`, persistent) and `zk.WorldACL` are not recorded.
- The log output of `base.InfoF` and `base.WarningF` is not modelled, and neither is the `delNums` counter, which is only logged.
- `ErrorF` is modelled only as the process exit it causes.
- `close(srv.errCh)` in `Shutdown` is not modelled, since channels are not modelled.
- `init`, `Monitor` and signal handling are not modelled. They only wire the pieces together and react to OS signals.
- `config.InitConfig` and the viper-read server list and timeout of `GetWorkerId` are not modelled. They only feed the connect call, whose failure is an input.
- `NewZkServer` is not modelled, since the model of the server holds no state.
- `Err.Error`, the JSON form of an error, is not modelled, because JSON encoding is not part of this model.
- `GenMurmur` is not modelled, since a hash library is not part of this model. Nothing in the core calls it.
- `cast.ToString` in `Monitor` is not modelled, because `Monitor` is left out.
- Utils.Itoa: covers non-negative integers only. Every candidate worker ID is in `[0, 4094]`, so negative values never occur.
- Snowflake.IssuedIdsDistinct: requires an even worker ID and a history shorter than 2^39 ms. Outside those bounds, OddWorkerRepeats and the wrap of the 39-bit time field show that IDs can repeat.
