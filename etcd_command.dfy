/** The decision logic of `etcd_command` (app.py): from the command name,
    its positional arguments and the `prefix` and `limit` options, the one
    request the client would send, or the error raised instead. The channel,
    the stub call and the logging around it are not modelled. */
module EtcdCommand {
  import opened Wrappers
  import opened ByteOrder
  import opened KeyCodec
  import opened PrefixRange

  /** The three request messages of the KV service, reduced to the fields the client sets. */
  datatype Request =
    | RangeRequest(key: seq<byte>, rangeEnd: Option<seq<byte>>, limit: int)
    | DeleteRangeRequest(key: seq<byte>, rangeEnd: Option<seq<byte>>)
    | PutRequest(key: seq<byte>, value: seq<byte>)

  datatype CommandError =
    | IndexError             // a positional argument the command reads is missing
    | Codec(cause: CodecError)
    | UnknownCommand         // logged, and no request is built

  /** The value of an optional bytes field after `to_bytes`. */
  function Field(v: Value): (r: Option<seq<byte>>)
    requires !v.Text?
    ensures r.None? <==> v.Absent?
  {
    match v
    case Absent => None
    case Bytes(b) => Some(b)
  }

  /** The arguments are `str` or `bytes` objects, never `None`. */
  predicate AllPresent(args: seq<Value>) {
    forall k :: 0 <= k < |args| ==> !args[k].Absent?
  }

  /** The request `etcd_command(command, *args, prefix=prefix, limit=limit)`
      sends; `limit` None stands for the option not being passed. */
  function BuildRequest(command: string, args: seq<Value>, prefix: bool, limit: Option<int>): (r: Result<Request, CommandError>)
    requires AllPresent(args)
    ensures r.Success? ==> (command == "get" <==> r.value.RangeRequest?)
    ensures r.Success? ==> (command == "del" <==> r.value.DeleteRangeRequest?)
    ensures r.Success? ==> (command == "put" <==> r.value.PutRequest?)
    ensures r == Failure(UnknownCommand) <==> command != "get" && command != "del" && command != "put"
  {
    if command == "get" || command == "del" then
      if |args| == 0 then Failure(IndexError)
      else
        match ToBytes(args[0])
        case Failure(e) => Failure(Codec(e))
        case Success(key) =>
          var given := if |args| > 1 then args[1] else Absent;
          var rangeEnd := if prefix then Bytes(PrefixRangeEnd(key.bytes)) else given;
          match ToBytes(key)
          case Failure(e) => Failure(Codec(e))
          case Success(key') =>
            match ToBytes(rangeEnd)
            case Failure(e) => Failure(Codec(e))
            case Success(end) =>
              if command == "get" then Success(RangeRequest(key'.bytes, Field(end), limit.GetOr(0)))
              else Success(DeleteRangeRequest(key'.bytes, Field(end)))
    else if command == "put" then
      if |args| == 0 then Failure(IndexError)
      else
        match ToBytes(args[0])
        case Failure(e) => Failure(Codec(e))
        case Success(key) =>
          if |args| < 2 then Failure(IndexError)
          else
            match ToBytes(args[1])
            case Failure(e) => Failure(Codec(e))
            case Success(value) => Success(PutRequest(key.bytes, value.bytes))
    else Failure(UnknownCommand)
  }

  /** `get` and `del`: the key is the first argument as bytes; the range end
      is the prefix end of that key when `prefix` is set, else the second
      argument as bytes, else absent; `get` passes `limit`, 0 by default. */
  lemma GetOrDeleteRequest(command: string, args: seq<Value>, prefix: bool, limit: Option<int>)
    requires command == "get" || command == "del"
    requires AllPresent(args) && |args| >= 1 && ToBytes(args[0]).Success?
    requires !prefix && |args| > 1 ==> ToBytes(args[1]).Success?
    ensures var r := BuildRequest(command, args, prefix, limit);
      var key := ToBytes(args[0]).value.bytes;
      && r.Success?
      && r.value.key == key
      && r.value.rangeEnd == (if prefix then Some(PrefixRangeEnd(key))
                              else if |args| > 1 then Some(ToBytes(args[1]).value.bytes)
                              else None)
      && (command == "get" ==> r.value.limit == limit.GetOr(0))
  {
    ToBytesIdempotent(args[0]);
  }

  /** `get` and `del` fail exactly when there is no argument, or the key
      cannot be encoded, or a literal range end is used and cannot be encoded. */
  lemma GetOrDeleteFailure(command: string, args: seq<Value>, prefix: bool, limit: Option<int>)
    requires command == "get" || command == "del"
    requires AllPresent(args)
    ensures var r := BuildRequest(command, args, prefix, limit);
      && (r == Failure(IndexError) <==> |args| == 0)
      && (r == Failure(Codec(UnicodeEncodeError)) <==>
            |args| > 0 && (ToBytes(args[0]).Failure? || (!prefix && |args| > 1 && ToBytes(args[1]).Failure?)))
  {
    if |args| > 0 && ToBytes(args[0]).Success? {
      ToBytesIdempotent(args[0]);
    }
  }

  /** With `prefix` set, a second argument is never read: the prefix end
      replaces it, even when it could not have been encoded. */
  lemma PrefixOverridesRangeEnd(command: string, args: seq<Value>, limit: Option<int>)
    requires command == "get" || command == "del"
    requires AllPresent(args) && |args| >= 1
    ensures BuildRequest(command, args, true, limit) == BuildRequest(command, args[..1], true, limit)
  {
  }

  /** Arguments after the second are ignored by every command. */
  lemma ExtraArgumentsIgnored(command: string, args: seq<Value>, prefix: bool, limit: Option<int>)
    requires AllPresent(args) && |args| >= 2
    ensures BuildRequest(command, args, prefix, limit) == BuildRequest(command, args[..2], prefix, limit)
  {
  }

  /** `put` sends its first two arguments as key and value; it fails on a
      missing argument, or with UnicodeEncodeError exactly when the key or the
      value is text that cannot be encoded, the key first. */
  lemma PutRequestFromArguments(args: seq<Value>, limit: Option<int>, prefix: bool)
    requires AllPresent(args)
    ensures var r := BuildRequest("put", args, prefix, limit);
      && (|args| >= 2 && ToBytes(args[0]).Success? && ToBytes(args[1]).Success? ==>
            r == Success(PutRequest(ToBytes(args[0]).value.bytes, ToBytes(args[1]).value.bytes)))
      && (r == Failure(IndexError) <==> |args| == 0 || (|args| == 1 && ToBytes(args[0]).Success?))
      && (|args| >= 1 && ToBytes(args[0]).Failure? ==> r == Failure(Codec(UnicodeEncodeError)))
      && (r == Failure(Codec(UnicodeEncodeError)) <==>
            (|args| >= 1 && ToBytes(args[0]).Failure?) || (|args| >= 2 && ToBytes(args[1]).Failure?))
  {
  }

  /** A prefix query on a non-empty text key covers exactly the keys that
      start with it: UTF-8 never produces 0xFF, so the client's range end is
      the truncating one. */
  lemma TextPrefixQueryIsExact(command: string, args: seq<Value>, limit: Option<int>, s: seq<byte>)
    requires command == "get" || command == "del"
    requires AllPresent(args) && |args| >= 1 && args[0].Text? && |args[0].chars| > 0
    requires ToBytes(args[0]).Success?
    ensures BuildRequest(command, args, true, limit).Success?
    ensures var req := BuildRequest(command, args, true, limit).value;
      && req.rangeEnd.Some?
      && (req.key <= s <==> LessEq(req.key, s) && Less(s, req.rangeEnd.value))
  {
    GetOrDeleteRequest(command, args, true, limit);
    var key := ToBytes(args[0]).value.bytes;
    EncodedTextHasNoMaxByte(args[0].chars);
    PrefixRangeEndExactWhenLastBelowMax(key, s);
  }

  /** With `prefix` set and a key that is empty or all 0xFF, no byte can be
      incremented: the range end sent is the key itself, and no error is raised. */
  lemma PrefixQueryWithoutBound(command: string, args: seq<Value>, limit: Option<int>)
    requires command == "get" || command == "del"
    requires AllPresent(args) && |args| >= 1 && ToBytes(args[0]).Success?
    requires AllMax(ToBytes(args[0]).value.bytes)
    ensures var r := BuildRequest(command, args, true, limit);
      r.Success? && r.value.rangeEnd == Some(r.value.key)
  {
    GetOrDeleteRequest(command, args, true, limit);
  }

  /** A prefix query on a bytes key ending in 0xFF reaches past its prefix:
      `get --prefix` on "a\xff" asks for ["a\xff", "b\xff"), which holds "b". */
  lemma BytesPrefixQueryOverIncludes()
    ensures BuildRequest("get", [Bytes([0x61, 0xFF])], true, None)
         == Success(RangeRequest([0x61, 0xFF], Some([0x62, 0xFF]), 0))
    ensures Less([0x61, 0xFF], [0x62]) && Less([0x62], [0x62, 0xFF]) && !([0x61, 0xFF] <= [0x62])
  {
    TrailingMaxOverIncludes();
  }
}
