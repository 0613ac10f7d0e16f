# etcd3-cli-py: request building and prefix range ends, in Dafny

`etcd3-cli-py` is a small command-line client for etcd's KV service: `get`,
`put` and `del` each send one `RangeRequest`, `PutRequest` or
`DeleteRangeRequest` over gRPC. This project models the logic the client
runs before it sends anything, in `app.py`:

- `prefix_range_end`: the range end for a prefix query. It copies the key
  into a mutable buffer, walks it from the last byte down, increments the
  first byte below 0xFF and stops. Nothing is truncated, so trailing 0xFF
  bytes stay in the result. An empty or all-0xFF key comes back unchanged.
- `to_bytes` / `to_string`: normalise a value that is `None`, a `str` or a
  `bytes` object, using strict UTF-8 in each direction.
- The request selection inside `etcd_command`: which request is built from
  the command name, the positional arguments and the `prefix` and `limit`
  options. The prefix end replaces any explicit range end. An unknown
  command builds nothing.

Modules, one file each:

- `Wrappers`: `Option` and `Result`.
- `ByteOrder`: bytes as integers 0..255, and etcd's key order (unsigned,
  lexicographic, a proper prefix first). Lemmas show it is a strict total
  order.
- `Utf8`: UTF-8 as defined in RFC 3629 (section 3 for the bit layout,
  section 4 for the byte sequences a strict decoder accepts). It is the
  codec that `bytes(key, encoding="utf8")` and `str(key, encoding="utf8")`
  apply. Decoding and encoding are proved inverse in both directions.
- `KeyCodec`: `to_bytes` and `to_string` over
  `Value = Absent | Text | Bytes`.
- `PrefixRange`: `prefix_range_end` in two forms. `PrefixRangeEnd` is the
  function. `ComputePrefixRangeEnd` is the loop over an `array`, proved
  equal to the function. Lemmas give the order properties.
  `ExactPrefixEnd` is the truncating end that etcd documents for prefix
  queries ("a\xff" gives "b"). It is a reference definition, proved to bound
  exactly the keys that extend the prefix.
- `EtcdCommand`: the request selection of `etcd_command` as the pure
  function `BuildRequest`, with lemmas for each rule.

The code and etcd's documented prefix end disagree. The code does not
truncate: for the key "a\xff" it sends the range end "b\xff" where etcd's
own client sends "b". The model follows the code. The lemmas
`PrefixRange.TrailingMaxOverIncludes` and
`EtcdCommand.BytesPrefixQueryOverIncludes` show what this changes: the range
["a\xff", "b\xff") also holds "b" and "b\x00", which do not start with
"a\xff". `PrefixRange.PrefixRangeEndPadsExactEnd` shows that the code's end
is always the truncating end followed by the key's trailing 0xFF bytes. The
two are equal when the key's last byte is below 0xFF. UTF-8 never produces
0xFF, so a prefix query on a non-empty text key covers exactly the keys
with that prefix (`EtcdCommand.TextPrefixQueryIsExact`); text keys are the
only kind the `get` and `del` commands pass. The empty text key is the
exception: its range end is the empty string, so the range `["", "")`
holds no key under this order, and what was asked as a scan of every key
is sent as a query for the single key "" (`EtcdCommand.PrefixQueryWithoutBound`). The over-inclusion needs a `bytes`
key, which only a direct caller of `etcd_command` can pass.

## Model

| member | source | states |
|---|---|---|
| `Utf8.EncodeScalar` | app.py:58 | the UTF-8 form of one scalar value has the length its range dictates (1 to 4 bytes), bytes after the first are continuation bytes, and C0, C1 and F5..FF never appear |
| `Utf8.Encode` | app.py:58 | strict encoding of a text succeeds exactly when it holds no surrogate; the output has between one and four bytes per code point, none of them C0, C1 or F5..FF |
| `Utf8.DecodeFirst` | app.py:66 | a character accepted at the head of a byte string is a scalar value and takes exactly as many bytes as its encoding |
| `Utf8.Decode` | app.py:66 | strictly decoded text holds only scalar values and is no longer than its input |
| `Utf8.DecodeEncode` | app.py:53-66 | decoding the encoding of a text gives the text back |
| `Utf8.EncodeDecode` | app.py:53-66 | a byte string that decodes is the encoding of what it decodes to, so well-formed UTF-8 has one reading |
| `KeyCodec.ToBytes` | app.py:53-58 | absence stays absence, bytes stay bytes, text becomes bytes; the result is never text; it fails, with UnicodeEncodeError, exactly on text holding a surrogate |
| `KeyCodec.ToString` | app.py:61-66 | absence stays absence, text stays text, bytes become text of scalar values; the result is never bytes; it fails, with UnicodeDecodeError, only on bytes |
| `KeyCodec.ToBytesIdempotent` | app.py:53-58 | `to_bytes(to_bytes(x)) == to_bytes(x)` whenever the first call succeeds |
| `KeyCodec.ToStringOfToBytes` | app.py:53-66 | `to_string(to_bytes(s)) == s` for every text `s` that encodes |
| `KeyCodec.ToBytesOfToString` | app.py:53-66 | `to_bytes(to_string(b)) == b` for every byte string `b` that decodes |
| `KeyCodec.EncodedTextHasNoMaxByte` | app.py:58 | no byte of encoded text is 0xFF |
| `PrefixRange.LastBelowMax` | app.py:74-75 | finds the right-most byte below 0xFF, every byte after it being 0xFF; finds nothing exactly when the key is empty or all 0xFF |
| `PrefixRange.PrefixRangeEnd` | app.py:69-78 | the result has the key's length; an empty or all-0xFF key is returned unchanged; otherwise the right-most byte below 0xFF is incremented and every other byte, including the trailing 0xFF bytes, is unchanged |
| `PrefixRange.ComputePrefixRangeEnd` | app.py:73-78 | the reversed loop with `break` over a copy of the key in an array returns exactly `PrefixRangeEnd` of the key |
| `PrefixRange.PrefixRangeEndAbove` | app.py:74-78 | when some byte is below 0xFF, the key is strictly below its range end |
| `PrefixRange.PrefixedKeysInRange` | app.py:74-78 | when some byte is below 0xFF, every key that extends the prefix lies in `[prefix, range end)` |
| `PrefixRange.PrefixRangeEndPadsExactEnd` | app.py:74-78 | the range end is the truncating end etcd documents, followed by the key's trailing 0xFF bytes |
| `PrefixRange.PrefixRangeEndExactWhenLastBelowMax` | app.py:74-78 | when the key's last byte is below 0xFF, the range end is the truncating one, and `[key, range end)` holds exactly the keys that extend the key |
| `PrefixRange.TrailingMaxOverIncludes` | app.py:74-78 | "a\xff" maps to "b\xff", not to the least bound "b"; "b\x00", of the key's length and above it, lies in the range without having the key as a prefix |
| `EtcdCommand.BuildRequest` | app.py:86-106 | `get` builds a RangeRequest, `del` a DeleteRangeRequest, `put` a PutRequest; any other name gives the unknown-command error and builds nothing |
| `EtcdCommand.GetOrDeleteRequest` | app.py:86-97 | for `get`/`del` the key is the first argument as bytes; the range end is the prefix end of the key when `prefix` is set, else the second argument as bytes, else absent; `get` passes `limit`, 0 when not given |
| `EtcdCommand.GetOrDeleteFailure` | app.py:86-94 | `get`/`del` raise IndexError exactly when there is no argument, and an encoding error exactly when the key, or a literal range end used without `prefix`, holds a surrogate |
| `EtcdCommand.PrefixOverridesRangeEnd` | app.py:87-93 | with `prefix` set the second argument is never read: the request equals the one built from the key alone |
| `EtcdCommand.ExtraArgumentsIgnored` | app.py:86-103 | arguments after the second change no request and no error |
| `EtcdCommand.PutRequestFromArguments` | app.py:101-103 | `put` sends its first two arguments as bytes for key and value; IndexError exactly when an argument is missing and nothing failed before; UnicodeEncodeError exactly when the key or the value is text holding a surrogate, the key being checked first |
| `EtcdCommand.PrefixQueryWithoutBound` | app.py:91-94 | with `prefix` set and an empty or all-0xFF key, the request is still built and its range end is the key itself |
| `EtcdCommand.TextPrefixQueryIsExact` | app.py:86-97 | a prefix query on a non-empty text key that encodes is always built, and its range covers exactly the keys that start with the encoded key |
| `EtcdCommand.BytesPrefixQueryOverIncludes` | app.py:86-97 | `get --prefix` on the bytes key "a\xff" sends the range ["a\xff", "b\xff"), which holds "b", a key without that prefix |

## Left out

- The `Etcd` class (app.py:17-50): it makes the gRPC stub calls and logs. The model stops at the request that would be sent.
- The channel, `asyncio.run` and the click commands (app.py:81-84, 109-143): I/O and CLI plumbing. The commands' arguments become the `args`, `prefix` and `limit` parameters of `BuildRequest`.
- Logging of "ok", of returned keys and values, of the deleted count, and of "Unknown command" (app.py:28, 38-40, 49, 106): side effects only. The unknown command is the `UnknownCommand` error.
- rpc_pb2.py: generated descriptors. The three request messages appear as the `Request` datatype with only the fields the client sets. There is no wire encoding, and the other fields (revision, sort options, lease, prev_kv and so on) stay at their defaults.
- EtcdCommand.Request: `rangeEnd` records the Python argument, so `None` and `Some([])` differ in the model. They are the same message on the wire: the protobuf constructor leaves a `None` field unset, and a proto3 `bytes` field cannot tell an unset field from `b""`. So `get x` and `get x ""` send the same `RangeRequest`.
- How the etcd server reads `range_end` (absent, empty or `\0`), and what a range read or delete returns. That logic lives in the server.
- EtcdCommand.BuildRequest: requires every argument to be a `str` or `bytes` object. The signature declares bytes and click passes `str`, so `None` never arrives as an argument.
- EtcdCommand.BuildRequest: passes any integer `limit` through. The protobuf library's int64 range check on the field is not modelled.
- KeyCodec.ToBytes: values other than `None`, `str` and `bytes` (a TypeError in Python) are not representable.
- Python's exception objects carry positions and messages. The model keeps only the exception's kind.
