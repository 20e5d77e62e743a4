// Command names: which the server knows, which write, and which of their arguments are keys.
// crates/server/src/dispatcher.rs:1579-1806, aof.rs:431-476.
module Names {
  import opened Bytes

  function Text(b: Bytes): (s: string)
  {
    seq(|b|, i requires 0 <= i < |b| => b[i] as char)
  }

  /** `WRITE_COMMANDS`. */
  predicate WriteName(n: string)
  {
    n in {"SET", "APPEND", "SETRANGE", "GETSET", "MSET", "MSETNX", "INCR", "DECR", "INCRBY", "DEL", "EXPIRE",
          "PEXPIRE", "EXPIREAT", "PEXPIREAT", "PERSIST", "RENAME", "RENAMENX", "HSET", "HDEL", "HINCRBY", "HSETNX",
          "RPUSH", "LPUSH", "RPOP", "LPOP", "LSET", "LTRIM", "LREM", "LINSERT", "LMOVE", "RPOPLPUSH", "BLMOVE",
          "BRPOPLPUSH", "BLPOP", "BRPOP", "SADD", "SREM", "SPOP", "SINTERSTORE", "SUNIONSTORE", "SDIFFSTORE",
          "ZADD", "ZREM", "ZINCRBY"}
  }

  // ----- `KNOWN_COMMANDS`, by where their keys are -----

  predicate Keyless(n: string)
  {
    n in {"PING", "ECHO", "SELECT", "COMMAND", "INFO", "HELLO", "KEYS", "SCAN", "RANDOMKEY", "CLUSTER", "SAVE",
          "BGREWRITEAOF", "REPLICAOF", "PSYNC", "SLOWLOG", "DEBUG", "AUTH", "ACL", "DBSIZE", "CONFIG", "CLIENT",
          "SUBSCRIBE", "UNSUBSCRIBE", "PSUBSCRIBE", "PUNSUBSCRIBE", "PUBLISH", "PUBSUB"}
  }

  predicate KeyedThroughout(n: string)
  {
    n in {"DEL", "EXISTS", "MGET", "RENAME", "RENAMENX", "SINTER", "SUNION", "SDIFF", "SINTERSTORE", "SUNIONSTORE",
          "SDIFFSTORE"}
  }

  predicate KeyedFirst(n: string)
  {
    n in {"APPEND", "DECR", "EXPIRE", "EXPIREAT", "GET", "GETRANGE", "GETSET", "HDEL", "HEXISTS", "HGET", "HGETALL",
          "HINCRBY", "HKEYS", "HLEN", "HMGET", "HSCAN", "HSET", "HSETNX", "HVALS", "INCR", "INCRBY", "LINDEX",
          "LINSERT", "LLEN", "LPOP", "LPUSH", "LRANGE", "LREM", "LSET", "LTRIM", "PERSIST", "PEXPIRE", "PEXPIREAT",
          "PTTL", "RPOP", "RPUSH", "SADD", "SCARD", "SET", "SETRANGE", "SISMEMBER", "SMEMBERS", "SPOP", "SRANDMEMBER",
          "SREM", "STRLEN", "TTL", "TYPE", "ZADD", "ZCARD", "ZINCRBY", "ZRANGE", "ZRANK", "ZREM", "ZSCORE"}
  }

  datatype KeySpec = NoKeys | FirstArg | SecondArg | AllArgs | EveryOther | FirstTwo | AllButLast

  /** `key_spec`; an unknown name has no keys. */
  function KeySpecOf(n: string): (r: KeySpec)
  {
    if Keyless(n) then NoKeys
    else if n == "MEMORY" || n == "OBJECT" then SecondArg
    else if KeyedThroughout(n) then AllArgs
    else if n == "MSET" || n == "MSETNX" then EveryOther
    else if n == "LMOVE" || n == "BLMOVE" || n == "RPOPLPUSH" || n == "BRPOPLPUSH" then FirstTwo
    else if n == "BLPOP" || n == "BRPOP" then AllButLast
    else if KeyedFirst(n) then FirstArg
    else NoKeys
  }

  predicate Known(n: string) { Keyless(n) || KeySpecOf(n) != NoKeys }

  /** Names that a transaction does not queue: they are answered at once. */
  predicate Bracketing(n: string) { n == "MULTI" || n == "EXEC" || n == "DISCARD" }

  /** Names that spoil a transaction when they come between MULTI and EXEC. */
  predicate Spoils(n: string)
  {
    !Known(n) || n == "SUBSCRIBE" || n == "UNSUBSCRIBE" || n == "PSUBSCRIBE" || n == "PUNSUBSCRIBE"
  }

  /** The arguments a key specification picks. */
  function Pick(spec: KeySpec, args: seq<Bytes>): (r: seq<Bytes>)
  {
    match spec
    case NoKeys => []
    case FirstArg => if args == [] then [] else args[..1]
    case SecondArg => if |args| < 2 then [] else args[1..2]
    case AllArgs => args
    case EveryOther => seq((|args| + 1) / 2, i requires 0 <= i < (|args| + 1) / 2 => args[2 * i])
    case FirstTwo => if |args| < 2 then args else args[..2]
    case AllButLast => if args == [] then [] else args[..|args| - 1]
  }

  /** Whatever is picked is an argument. */
  lemma PicksArguments(spec: KeySpec, args: seq<Bytes>, i: nat)
    requires i < |Pick(spec, args)|
    ensures Pick(spec, args)[i] in args
  {
    if spec.SecondArg? {
      assert args[1..2][0] == args[1];
    }
  }

  /** Every write the log knows is a command with at least one place for a key. */
  lemma WritesHaveKeys(n: string)
    requires WriteName(n)
    ensures Known(n) && KeySpecOf(n) != NoKeys
  {
  }

  /** `KNOWN_COMMANDS`. */
  predicate Listed(n: string)
  {
    n in {
      "ACL", "APPEND", "AUTH", "BGREWRITEAOF", "BLMOVE", "BLPOP", "BRPOP", "BRPOPLPUSH", "CLIENT", "CLUSTER",
      "COMMAND", "CONFIG", "DBSIZE", "DEBUG", "DECR", "DEL", "ECHO", "EXISTS", "EXPIRE", "EXPIREAT", "GET",
      "GETRANGE", "GETSET", "HDEL", "HELLO", "HEXISTS", "HGET", "HGETALL", "HINCRBY", "HKEYS", "HLEN", "HMGET",
      "HSCAN", "HSET", "HSETNX", "HVALS", "INCR", "INCRBY", "INFO", "KEYS", "LINDEX", "LINSERT", "LLEN", "LMOVE",
      "LPOP", "LPUSH", "LRANGE", "LREM", "LSET", "LTRIM", "MEMORY", "MGET", "MSET", "MSETNX", "OBJECT", "PERSIST",
      "PEXPIRE", "PEXPIREAT", "PING", "PSUBSCRIBE", "PSYNC", "PTTL", "PUBLISH", "PUBSUB", "PUNSUBSCRIBE",
      "RANDOMKEY", "RENAME", "RENAMENX", "REPLICAOF", "RPOP", "RPOPLPUSH", "RPUSH", "SADD", "SAVE", "SCAN", "SCARD",
      "SDIFF", "SDIFFSTORE", "SELECT", "SET", "SETRANGE", "SINTER", "SINTERSTORE", "SISMEMBER", "SLOWLOG",
      "SMEMBERS", "SPOP", "SRANDMEMBER", "SREM", "STRLEN", "SUBSCRIBE", "SUNION", "SUNIONSTORE", "TTL", "TYPE",
      "UNSUBSCRIBE", "ZADD", "ZCARD", "ZINCRBY", "ZRANGE", "ZRANK", "ZREM", "ZSCORE"
    }
  }

  /** A name is known exactly when it is listed, however its keys are found. */
  lemma KnownIff(n: string)
    ensures Known(n) <==> Listed(n)
  {
  }

  /** What a transaction does with a name: MULTI, EXEC and DISCARD are answered at once, subscriptions and
      names that are not listed spoil it, and every other one is queued. */
  lemma TransactionNames(n: string)
    ensures Spoils(n) <==> !Listed(n) || n in {"SUBSCRIBE", "UNSUBSCRIBE", "PSUBSCRIBE", "PUNSUBSCRIBE"}
    ensures Bracketing("MULTI") && Bracketing("EXEC") && Bracketing("DISCARD") && (Listed(n) ==> !Bracketing(n))
  {
    hide Known, Listed;
    KnownIff(n);
    if Bracketing(n) {
      BracketsUnlisted(n);
    }
  }

  lemma BracketsUnlisted(n: string)
    requires Bracketing(n)
    ensures !Listed(n)
  {
    hide Known;
  }
}
