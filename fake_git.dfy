/** The `FakeGit` mock of the `qisrc` tests: a git wrapper whose commands
    are answered from per-command queues of scripted results, with a log of
    every call and a configuration store shared by all mocks of a
    repository. */
module FakeGitMock {
  import opened Wrappers

  /** One scripted answer: a return code and an output. */
  datatype Scripted = Scripted(retcode: int, out: string)

  /** One logged call: its positional arguments and its `raises` keyword
      argument, `None` when not given. */
  datatype LoggedCall = LoggedCall(args: seq<string>, raises: Option<bool>)

  /** The exceptions the mock raises, without their message text. */
  datatype GitError =
    | Unexpected(cmd: string)                          // get_result: no queue for the command
    | Exhausted(cmd: string, calls: nat, configured: nat) // get_result: queue used up
    | NeverCalled(cmd: string)                         // check
    | CalledTooFew(cmd: string, configured: nat, calls: nat) // check
    | Failed(args: seq<string>)                        // _call: non-zero return code
    | NoCommand                                        // `args[0]` of an empty argument tuple

  /** The class-level `FakeGit.repo_configs`: one configuration map per
      repository, shared by every mock. */
  class RepoConfigs {
    var configs: map<string, map<string, string>>

    constructor ()
      ensures configs == map[]
    {
      configs := map[];
    }
  }

  /** Every logged call has a command. */
  predicate AllHaveCommand(cs: seq<LoggedCall>) {
    forall j :: 0 <= j < |cs| ==> cs[j].args != []
  }

  /** Every index is within its command's queue, and what was handed out
      for a command is its queue up to the index. */
  ghost predicate Tracks(index: map<string, nat>, results: map<string, seq<Scripted>>,
                         served: map<string, seq<Scripted>>) {
    && index.Keys <= results.Keys
    && served.Keys == index.Keys
    && forall k {:trigger index[k]} :: k in index ==> index[k] <= |results[k]| && served[k] == results[k][..index[k]]
  }

  /** `calls_index.get(cmd, 0)`. */
  function IndexOf(index: map<string, nat>, cmd: string): nat {
    if cmd in index then index[cmd] else 0
  }

  /** The answers handed out for a command, none before its first call. */
  ghost function ServedOf(served: map<string, seq<Scripted>>, cmd: string): seq<Scripted> {
    if cmd in served then served[cmd] else []
  }

  /** What `get_result(cmd)` answers given the indexes and the queues. */
  function NextAnswer(index: map<string, nat>, results: map<string, seq<Scripted>>, cmd: string)
    : (r: Result<Scripted, GitError>)
    ensures r.Ok? <==> cmd in results && IndexOf(index, cmd) < |results[cmd]|
    ensures r.Ok? ==> r.value == results[cmd][IndexOf(index, cmd)]
    ensures r == Err(Unexpected(cmd)) <==> cmd !in results
    ensures r.Err? && cmd in results ==>
              r.error == Exhausted(cmd, IndexOf(index, cmd) + 1, |results[cmd]|)
  {
    if cmd !in results then Err(Unexpected(cmd))
    else if IndexOf(index, cmd) >= |results[cmd]| then
      Err(Exhausted(cmd, IndexOf(index, cmd) + 1, |results[cmd]|))
    else Ok(results[cmd][IndexOf(index, cmd)])
  }

  /** Starting the index of a command at 0 keeps the queues consistent. */
  lemma TracksAfterStart(index: map<string, nat>, results: map<string, seq<Scripted>>,
                         served: map<string, seq<Scripted>>, cmd: string)
    requires Tracks(index, results, served) && cmd in results && cmd !in index
    ensures Tracks(index[cmd := 0], results, served[cmd := []])
  {
  }

  /** Handing out the next answer of a queue keeps the queues consistent. */
  lemma TracksAfterServe(index: map<string, nat>, results: map<string, seq<Scripted>>,
                         served: map<string, seq<Scripted>>, cmd: string)
    requires Tracks(index, results, served) && cmd in index && index[cmd] < |results[cmd]|
    ensures Tracks(index[cmd := index[cmd] + 1], results, served[cmd := served[cmd] + [results[cmd][index[cmd]]]])
  {
    var i := index[cmd];
    assert results[cmd][..i + 1] == results[cmd][..i] + [results[cmd][i]];
  }

  class FakeGit {
    const repo: string
    const shared: RepoConfigs
    var calls: seq<LoggedCall>
    var callsIndex: map<string, nat>
    var results: map<string, seq<Scripted>>
    /** The answers handed out so far, per command. */
    ghost var served: map<string, seq<Scripted>>

    /** No command is answered more often than it has results, and the
        answers handed out for a command are the first ones of its queue,
        in order. */
    ghost predicate Valid()
      reads this
    {
      Tracks(callsIndex, results, served)
    }

    /** `FakeGit(repo)`: a repository seen for the first time gets an empty
        configuration; an existing one is kept. */
    constructor (repo: string, shared: RepoConfigs)
      modifies shared
      ensures this.repo == repo && this.shared == shared
      ensures shared.configs ==
                if repo in old(shared.configs) then old(shared.configs) else old(shared.configs)[repo := map[]]
      ensures calls == [] && callsIndex == map[] && results == map[]
      ensures Valid()
    {
      this.repo := repo;
      this.shared := shared;
      calls := [];
      callsIndex := map[];
      results := map[];
      served := map[];
      new;
      if repo !in shared.configs {
        shared.configs := shared.configs[repo := map[]];
      }
    }

    /** `get_config(name)`: the value set for the repository, `None` when
        unset. */
    function GetConfig(name: string): (r: Option<string>)
      reads this, shared
      requires repo in shared.configs
      ensures r.Some? <==> name in shared.configs[repo]
      ensures r.Some? ==> r.value == shared.configs[repo][name]
    {
      var c := shared.configs[repo];
      if name in c then Some(c[name]) else None
    }

    /** `set_config(name, value)`: later reads of `name`, by any mock of the
        repository, give `value`; nothing else changes. */
    method SetConfig(name: string, value: string)
      requires repo in shared.configs
      modifies shared
      ensures shared.configs == old(shared.configs)[repo := old(shared.configs)[repo][name := value]]
      ensures GetConfig(name) == Some(value)
      ensures forall n :: n != name ==> GetConfig(n) == old(GetConfig(n))
    {
      shared.configs := shared.configs[repo := shared.configs[repo][name := value]];
    }

    /** `add_result(cmd, retcode, out)`: appends to the end of the queue of
        `cmd`; the queues of other commands are unchanged. */
    method AddResult(cmd: string, retcode: int, out: string)
      requires Valid()
      modifies this`results
      ensures Valid()
      ensures results == old(results)[cmd := (if cmd in old(results) then old(results)[cmd] else []) + [Scripted(retcode, out)]]
    {
      if cmd in results {
        ghost var q := results[cmd];
        results := results[cmd := results[cmd] + [Scripted(retcode, out)]];
        if cmd in callsIndex {
          assert results[cmd][..callsIndex[cmd]] == q[..callsIndex[cmd]];
        }
      } else {
        assert [] + [Scripted(retcode, out)] == [Scripted(retcode, out)];
        results := results[cmd := [Scripted(retcode, out)]];
      }
    }

    /** The first step of `get_result` for a configured command: a command
        not called yet gets index 0. */
    method StartIndex(cmd: string)
      requires Valid() && cmd in results
      modifies this`callsIndex, this`served
      ensures Valid()
      ensures callsIndex == old(callsIndex)[cmd := IndexOf(old(callsIndex), cmd)]
      ensures served == old(served)[cmd := ServedOf(old(served), cmd)]
    {
      if cmd !in callsIndex {
        TracksAfterStart(callsIndex, results, served, cmd);
        callsIndex := callsIndex[cmd := 0];
        served := served[cmd := []];
      }
    }

    /** The last step of `get_result`: answers with the entry at the
        command's index and moves the index past it. */
    method Serve(cmd: string) returns (res: Scripted)
      requires Valid() && cmd in callsIndex && callsIndex[cmd] < |results[cmd]|
      modifies this`callsIndex, this`served
      ensures Valid()
      ensures res == results[cmd][old(callsIndex[cmd])]
      ensures callsIndex == old(callsIndex)[cmd := old(callsIndex[cmd]) + 1]
      ensures served == old(served)[cmd := old(served[cmd]) + [res]]
    {
      res := results[cmd][callsIndex[cmd]];
      TracksAfterServe(callsIndex, results, served, cmd);
      callsIndex := callsIndex[cmd := callsIndex[cmd] + 1];
      served := served[cmd := served[cmd] + [res]];
    }

    /** `get_result(cmd)`: the next answer of the queue of `cmd`. A command
        without a queue raises; so does one whose queue is used up, after
        its index has been initialised. */
    method GetResult(cmd: string) returns (r: Result<Scripted, GitError>)
      requires Valid()
      modifies this`callsIndex, this`served
      ensures Valid()
      ensures r == NextAnswer(old(callsIndex), results, cmd)
      ensures cmd !in results ==> callsIndex == old(callsIndex)
      ensures cmd in results ==>
                callsIndex == old(callsIndex)[cmd := IndexOf(old(callsIndex), cmd) + if r.Ok? then 1 else 0]
      // the answers handed out for `cmd` grow by the one returned
      ensures r.Ok? ==> served == old(served)[cmd := ServedOf(old(served), cmd) + [r.value]]
      ensures r.Err? ==> ServedOf(served, cmd) == ServedOf(old(served), cmd)
    {
      if cmd !in results {
        return Err(Unexpected(cmd));
      }
      StartIndex(cmd);
      var index := callsIndex[cmd];
      var resList := results[cmd];
      if index >= |resList| {
        return Err(Exhausted(cmd, index + 1, |resList|));
      }
      var res := Serve(cmd);
      r := Ok(res);
    }

    /** Every configured command was called exactly as often as it has
        results. */
    predicate AllConsumed()
      reads this
    {
      forall k :: k in results ==> k in callsIndex && callsIndex[k] == |results[k]|
    }

    /** `check()`: succeeds iff every queue was used up; otherwise raises
        for some command (the dictionary's order decides which) that was
        never called or called fewer times than configured. */
    method Check() returns (r: Outcome<GitError>)
      ensures r.Pass? <==> AllConsumed()
      ensures r.Fail? ==> r.error.NeverCalled? || r.error.CalledTooFew?
      ensures r.Fail? && r.error.NeverCalled? ==> r.error.cmd in results && r.error.cmd !in callsIndex
      ensures r.Fail? && r.error.CalledTooFew? ==>
                r.error.cmd in results && r.error.cmd in callsIndex &&
                r.error == CalledTooFew(r.error.cmd, |results[r.error.cmd]|, callsIndex[r.error.cmd]) &&
                r.error.calls != r.error.configured
      ensures r.Fail? && r.error.CalledTooFew? && Valid() ==> r.error.calls < r.error.configured
    {
      var todo := results.Keys;
      while todo != {}
        invariant todo <= results.Keys
        invariant forall k :: k in results && k !in todo ==> k in callsIndex && callsIndex[k] == |results[k]|
        decreases todo
      {
        var k :| k in todo;
        if k !in callsIndex {
          return Fail(NeverCalled(k));
        }
        if callsIndex[k] != |results[k]| {
          return Fail(CalledTooFew(k, |results[k]|, callsIndex[k]));
        }
        todo := todo - {k};
      }
      return Pass;
    }

    /** `called(cmd)`: whether some logged call's command is `cmd`. The log
        is scanned in order, and a logged call without arguments that comes
        before any match raises. */
    method Called(cmd: string) returns (r: Result<bool, GitError>)
      ensures r.Err? ==> r.error == NoCommand
      ensures r == Ok(true) <==>
                exists i :: 0 <= i < |calls| && AllHaveCommand(calls[..i]) && calls[i].args != [] && calls[i].args[0] == cmd
      ensures AllHaveCommand(calls) ==>
                r == Ok(exists i :: 0 <= i < |calls| && calls[i].args[0] == cmd)
      // a scan that ends without a match met no call without arguments
      ensures r == Ok(false) ==> AllHaveCommand(calls)
    {
      var i := 0;
      while i < |calls|
        invariant 0 <= i <= |calls|
        invariant AllHaveCommand(calls[..i])
        invariant forall j :: 0 <= j < i ==> calls[j].args[0] != cmd
      {
        if calls[i].args == [] {
          forall j | i < j < |calls| ensures !AllHaveCommand(calls[..j]) {
            assert calls[..j][i] == calls[i];
          }
          return Err(NoCommand);
        }
        if calls[i].args[0] == cmd {
          return Ok(true);
        }
        assert calls[..i + 1] == calls[..i] + [calls[i]];
        i := i + 1;
      }
      return Ok(false);
    }

    /** `_call(*args, **kwargs)`: logs the call first, then answers from the
        queue of its command. With `raises=False` the scripted pair is
        returned; otherwise a non-zero return code raises and a zero one
        returns `None`. */
    method Call(args: seq<string>, raises: Option<bool>) returns (r: Result<Option<Scripted>, GitError>)
      requires Valid()
      modifies this
      ensures Valid()
      ensures calls == old(calls) + [LoggedCall(args, raises)]
      ensures results == old(results)
      ensures args == [] ==> r == Err(NoCommand) && callsIndex == old(callsIndex)
      ensures args != [] && NextAnswer(old(callsIndex), results, args[0]).Err? ==>
                r == Err(NextAnswer(old(callsIndex), results, args[0]).error)
      // a failed lookup only initialises the command's index, if it has a queue
      ensures args != [] && NextAnswer(old(callsIndex), results, args[0]).Err? ==>
                callsIndex == if args[0] in results then old(callsIndex)[args[0] := IndexOf(old(callsIndex), args[0])]
                              else old(callsIndex)
      ensures args != [] && NextAnswer(old(callsIndex), results, args[0]).Ok? ==>
                var s := NextAnswer(old(callsIndex), results, args[0]).value;
                && callsIndex == old(callsIndex)[args[0] := IndexOf(old(callsIndex), args[0]) + 1]
                && (raises == Some(false) ==> r == Ok(Some(s)))
                && (raises != Some(false) ==> r == if s.retcode != 0 then Err(Failed(args)) else Ok(None))
    {
      calls := calls + [LoggedCall(args, raises)];
      if args == [] {
        return Err(NoCommand);
      }
      var res := GetResult(args[0]);
      if res.Err? {
        return Err(res.error);
      }
      var s := res.value;
      if raises == Some(false) {
        return Ok(Some(s));
      }
      if s.retcode != 0 {
        return Err(Failed(args));
      }
      return Ok(None);
    }
  }
}
