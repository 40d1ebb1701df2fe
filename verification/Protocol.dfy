/** memcached_client.c: the commands it writes, the replies it reads, and the server's side of the text protocol as
    a function on the stored map. */
module Protocol {
  import opened CStrings

  type Store = map<string, string>

  /** Keys the protocol can carry: no blank and no line end. */
  predicate IsKey(k: string) {
    k != "" && ' ' !in k && '\n' !in k && '\r' !in k
  }

  /** get_storage_command */
  function StorageCommand(name: string, key: string, value: string): string {
    name + " " + key + " 0 0 " + Dec(|value|) + "\n" + value + "\r\n"
  }

  /** get_retrieve_command */
  function RetrieveCommand(name: string, key: string): string {
    name + " " + key + "\r\n"
  }

  // The server

  function Words(s: string): (ws: seq<string>)
    ensures |ws| > 0
    decreases |s|
  {
    var n := Find(s, ' ', 0);
    if n == |s| then [s] else [s[..n]] + Words(s[n + 1..])
  }

  /** The command line ends at the first newline; a carriage return before it is not part of it. */
  function CommandLine(cmd: string): string {
    var n := Find(cmd, '\n', 0);
    if n > 0 && cmd[n - 1] == '\r' then cmd[..n - 1] else cmd[..n]
  }

  /** What follows the command line. */
  function DataBlock(cmd: string): string {
    var n := Find(cmd, '\n', 0);
    if n == |cmd| then "" else cmd[n + 1..]
  }

  function ValueReply(key: string, value: string): string {
    "VALUE " + key + " 0 " + Dec(|value|) + "\r\n" + value + "\r\nEND\r\n"
  }

  /** The four commands the client uses, on a store that keeps flags 0 and never expires. */
  function Serve(kv: Store, cmd: string): (Store, string) {
    var ws, data := Words(CommandLine(cmd)), DataBlock(cmd);
    if |ws| == 2 && ws[0] == "get" then
      (kv, if ws[1] in kv then ValueReply(ws[1], kv[ws[1]]) else "END\r\n")
    else if |ws| == 2 && ws[0] == "delete" then
      (kv - {ws[1]}, if ws[1] in kv then "DELETED\r\n" else "NOT_FOUND\r\n")
    else if |ws| == 5 && ws[0] == "set" then
      var n := Atoi(ws[4]);
      if n + 2 <= |data| && data[n..n + 2] == "\r\n" then (kv[ws[1] := data[..n]], "STORED\r\n")
      else (kv, "CLIENT_ERROR bad data chunk\r\n")
    else if ws == ["flush_all"] then (map[], "OK\r\n")
    else (kv, "ERROR\r\n")
  }

  lemma WordsCons(w: string, rest: string)
    requires ' ' !in w
    ensures Words(w + " " + rest) == [w] + Words(rest)
  {
    var s := w + " " + rest;
    FindIs(s, ' ', 0, |w|);
    assert s[..|w|] == w && s[|w| + 1..] == rest;
  }

  lemma WordsLast(w: string)
    requires ' ' !in w
    ensures Words(w) == [w]
  {
    FindIs(w, ' ', 0, |w|);
  }

  lemma TwoWords(a: string, b: string)
    requires ' ' !in a && ' ' !in b
    ensures Words(a + " " + b) == [a, b]
  {
    WordsCons(a, b);
    WordsLast(b);
  }

  lemma FiveWords(a: string, b: string, c: string, d: string, e: string)
    requires ' ' !in a && ' ' !in b && ' ' !in c && ' ' !in d && ' ' !in e
    ensures Words(a + " " + (b + " " + (c + " " + (d + " " + e)))) == [a, b, c, d, e]
  {
    hide Words;
    WordsCons(a, b + " " + (c + " " + (d + " " + e)));
    WordsCons(b, c + " " + (d + " " + e));
    WordsCons(c, d + " " + e);
    TwoWords(d, e);
  }

  /** The server reads back the words of a retrieval command. */
  lemma ServerReadsRetrieve(name: string, key: string)
    requires IsKey(key) && IsKey(name)
    ensures Words(CommandLine(RetrieveCommand(name, key))) == [name, key]
  {
    hide Words;
    var line := name + " " + key;
    var cmd := RetrieveCommand(name, key);
    assert cmd == line + "\r\n" && '\n' !in line;
    FindIs(cmd, '\n', 0, |line| + 1);
    assert cmd[..|line|] == line;
    TwoWords(name, key);
  }

  lemma PlainLine(line: string, data: string)
    requires '\n' !in line && line != "" && line[|line| - 1] != '\r'
    ensures CommandLine(line + "\n" + data) == line && DataBlock(line + "\n" + data) == data
  {
    var cmd := line + "\n" + data;
    FindIs(cmd, '\n', 0, |line|);
    assert cmd[..|line|] == line && cmd[|line| + 1..] == data;
  }

  function StorageWords(key: string, n: string): string {
    "set" + " " + (key + " " + ("0" + " " + ("0" + " " + n)))
  }

  lemma StorageWordsPlain(key: string, n: nat)
    requires IsKey(key)
    ensures var line := StorageWords(key, Dec(n)); '\n' !in line && line != "" && line[|line| - 1] != '\r'
  {
    var line := StorageWords(key, Dec(n));
    assert line[|line| - 1] == Dec(n)[|Dec(n)| - 1];
  }

  /** The server reads back the words and the payload of a storage command, whatever bytes the payload has. */
  lemma ServerReadsStorage(key: string, value: string)
    requires IsKey(key)
    ensures Words(CommandLine(StorageCommand("set", key, value))) == ["set", key, "0", "0", Dec(|value|)]
    ensures DataBlock(StorageCommand("set", key, value)) == value + "\r\n"
  {
    hide Words, CommandLine, DataBlock;
    FiveWords("set", key, "0", "0", Dec(|value|));
    StorageLine(key, Dec(|value|), value);
    StorageWordsPlain(key, |value|);
    PlainLine(StorageWords(key, Dec(|value|)), value + "\r\n");
  }

  lemma StorageLine(key: string, n: string, value: string)
    ensures "set" + " " + key + " 0 0 " + n + "\n" + value + "\r\n"
         == StorageWords(key, n) + "\n" + (value + "\r\n")
  {
  }

  /** A storage command stores exactly the payload under the key. */
  lemma ServeSet(kv: Store, key: string, value: string)
    requires IsKey(key)
    ensures Serve(kv, StorageCommand("set", key, value)) == (kv[key := value], "STORED\r\n")
  {
    hide Words, CommandLine, DataBlock, StorageCommand;
    ServerReadsStorage(key, value);
    AtoiDec(|value|, []);
    assert Dec(|value|) + [] == Dec(|value|);
    assert (value + "\r\n")[..|value|] == value && (value + "\r\n")[|value|..|value| + 2] == "\r\n";
  }

  // The reply

  /** What memcached_get takes from a reply that is not just END. */
  function ParseReply(key: string, response: string): string
    requires |key| + 9 <= |response| && Find(response, '\n', |key| + 9) < |response|
    requires var end := Find(response, '\n', |key| + 9); end + 1 + Atoi(response[|key| + 9..end]) <= |response|
  {
    var end := Find(response, '\n', |key| + 9);
    response[end + 1..end + 1 + Atoi(response[|key| + 9..end])]
  }

  /** The parser of memcached_get inverts the server's framing for every payload. */
  lemma ReplyParses(key: string, value: string)
    requires IsKey(key)
    ensures var r := ValueReply(key, value);
            && |key| + 9 <= |r| && Find(r, '\n', |key| + 9) < |r|
            && Find(r, '\n', |key| + 9) + 1 + Atoi(r[|key| + 9..Find(r, '\n', |key| + 9)]) <= |r|
            && ParseReply(key, r) == value && r[0] == 'V'
  {
    hide Dec, Atoi;
    var r, d := ValueReply(key, value), Dec(|value|);
    var start := |key| + 9;
    var end := start + |d| + 1;
    ReplyLayout("VALUE " + key + " 0 ", d, value);
    FindIs(r, '\n', start, end);
    AtoiDec(|value|, "\r");
  }

  lemma ReplyLayout(head: string, d: string, value: string)
    requires '\n' !in d
    ensures var r := head + d + "\r\n" + value + "\r\nEND\r\n";
            var start, end := |head|, |head| + |d| + 1;
            && end < |r| && r[end] == '\n' && (forall i :: start <= i < end ==> r[i] != '\n')
            && r[start..end] == d + "\r" && end + 1 + |value| <= |r| && r[end + 1..end + 1 + |value|] == value
  {
    var r := head + d + "\r\n" + value + "\r\nEND\r\n";
    var start, end := |head|, |head| + |d| + 1;
    assert r[start..end] == d + "\r";
    assert forall i :: start <= i < end ==> r[i] == (d + "\r")[i - start];
  }

  /** The value "NOVALUE" makes the client send a retrieval command, which stores nothing. */
  lemma ServeSentinel(kv: Store, key: string)
    requires IsKey(key)
    ensures Serve(kv, RetrieveCommand("set", key)) == (kv, "ERROR\r\n")
  {
    ServerReadsRetrieve("set", key);
  }

  lemma ServeGet(kv: Store, key: string)
    requires IsKey(key)
    ensures Serve(kv, RetrieveCommand("get", key)) == (kv, if key in kv then ValueReply(key, kv[key]) else "END\r\n")
  {
    hide Words, CommandLine, DataBlock, RetrieveCommand, ValueReply;
    ServerReadsRetrieve("get", key);
  }

  lemma ServeDelete(kv: Store, key: string)
    requires IsKey(key)
    ensures Serve(kv, RetrieveCommand("delete", key)) == (kv - {key},
        if key in kv then "DELETED\r\n" else "NOT_FOUND\r\n")
  {
    hide Words, CommandLine, DataBlock, RetrieveCommand;
    ServerReadsRetrieve("delete", key);
  }

  lemma ServeFlush(kv: Store)
    ensures Serve(kv, "flush_all\r\n") == (map[], "OK\r\n") && CStr("OK\r\n") == "OK\r\n"
  {
    var cmd := "flush_all\r\n";
    FindIs(cmd, '\n', 0, 10);
    WordsLast("flush_all");
    assert CommandLine(cmd) == "flush_all";
  }

  /** The strings the client compares replies with contain no NUL. */
  lemma Literals()
    ensures CStr("NOVALUE") == "NOVALUE" && CStr("STORED\r\n") == "STORED\r\n" && CStr("ERROR\r\n") == "ERROR\r\n"
    ensures CStr("END\r\n") == "END\r\n" && CStr("DELETED\r\n") == "DELETED\r\n"
        && CStr("NOT_FOUND\r\n") == "NOT_FOUND\r\n"
  {
  }

  /** The server as the client sees it over a reliable connection. */
  class Memcached {
    var kv: Store

    constructor ()
      ensures kv == map[]
    {
      kv := map[];
    }

    /** send_to_server */
    method Exchange(command: string) returns (response: string)
      modifies this
      ensures (kv, response) == Serve(old(kv), command)
    {
      var r := Serve(kv, command);
      kv, response := r.0, r.1;
    }

    /** send_command: the value "NOVALUE" marks the commands that carry none. */
    method SendCommand(name: string, key: string, value: string) returns (response: string)
      modifies this
      ensures (kv, response) ==
              Serve(old(kv),
                  if CStr(value) == "NOVALUE" then RetrieveCommand(name, key) else StorageCommand(name, key, value))
    {
      var command;
      if CStr(value) == "NOVALUE" {
        command := RetrieveCommand(name, key);
      } else {
        command := StorageCommand(name, key, value);
      }
      response := Exchange(command);
    }

    /** memcached_set: one value cannot be stored. */
    method Set(key: string, value: string) returns (ok: bool)
      requires IsKey(key)
      modifies this
      ensures ok <==> CStr(value) != "NOVALUE"
      ensures kv == if ok then old(kv)[key := value] else old(kv)
    {
      hide Serve, CStr, StorageCommand, RetrieveCommand;
      Literals();
      ServeSet(kv, key, value);
      ServeSentinel(kv, key);
      var response := SendCommand("set", key, value);
      ok := CStr(response) == "STORED\r\n";
    }

    /** memcached_get */
    method Get(key: string) returns (data: Option<string>)
      requires IsKey(key)
      modifies this
      ensures kv == old(kv) && data == if key in kv then Some(kv[key]) else None
    {
      hide Serve, CStr, StorageCommand, RetrieveCommand, ValueReply, Atoi;
      Literals();
      ServeGet(kv, key);
      var response := SendCommand("get", key, "NOVALUE");
      if key in kv {
        ReplyParses(key, kv[key]);
        ReplyIsNotEnd(response);
      }
      if CStr(response) == "END\r\n" {
        return None;
      }
      var offset := |"VALUE"| + |key| + 1 + 3;
      var dataSize := "";
      var cur := response[offset];
      while cur != '\n'
        invariant offset + |dataSize| <= Find(response, '\n', offset) && cur == response[offset + |dataSize|]
        invariant dataSize == response[offset..offset + |dataSize|]
        decreases Find(response, '\n', offset) - |dataSize|
      {
        dataSize := dataSize + [cur];
        cur := response[offset + |dataSize|];
      }
      var start := offset + |dataSize| + 1;
      data := Some(response[start..start + Atoi(dataSize)]);
    }

    /** memcached_delete */
    method Delete(key: string) returns (status: int)
      requires IsKey(key)
      modifies this
      ensures kv == old(kv) - {key} && status == 0
    {
      hide Serve, CStr, StorageCommand, RetrieveCommand;
      Literals();
      ServeDelete(kv, key);
      var response := SendCommand("delete", key, "NOVALUE");
      if CStr(response) == "DELETED\r\n" {
        status := 0;
      } else if CStr(response) == "ERROR\r\n" {
        status := -1;
      } else {
        status := 0;
      }
    }

    /** memcached_flush_all */
    method FlushAll() returns (status: int)
      modifies this
      ensures kv == map[] && status == 0
    {
      hide Serve, CStr;
      ServeFlush(kv);
      var response := Exchange("flush_all\r\n");
      status := if CStr(response) == "OK\r\n" then 0 else -1;
    }
  }

  lemma ReplyIsNotEnd(response: string)
    requires response != "" && response[0] == 'V'
    ensures CStr(response) != "END\r\n"
  {
    if CStr(response) != "" {
      assert CStr(response)[0] == 'V';
    }
  }
}
