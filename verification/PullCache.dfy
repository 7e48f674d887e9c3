/** The agent's conditional pull of its configuration. */
module PullCache {
  import opened Common

  datatype Body<T> = Unread | Slow | Garbled | Decoded(targets: seq<T>)

  datatype Response<T> =
    | Failed
    | TimedOut
    | Answer(status: nat, etag: Option<string>, body: Body<T>)

  datatype Cache<T> = Cache(etag: Option<string>, targets: seq<T>)

  type Outcome<T> = Result<seq<T>, string>

  predicate Success(status: nat) { 200 <= status < 300 }

  predicate Rejected<T>(r: Response<T>) { r.Answer? && (r.status == 401 || r.status == 403) }

  predicate Fresh<T>(r: Response<T>) { r.Answer? && Success(r.status) && r.body.Decoded? }

  /** Answered by the control plane with a body the agent cannot use. */
  predicate Broken<T>(r: Response<T>) {
    r.Answer? && Success(r.status) && (r.body.Unread? || r.body.Garbled?)
  }

  /** No answer, an unexpected status, or a body that took too long. */
  predicate Transient<T>(r: Response<T>) {
    !r.Answer? ||
    (r.status != 304 && !Rejected(r) && !Success(r.status)) ||
    (Success(r.status) && r.body.Slow?)
  }

  /** What is known after a history of responses: the etag and targets of the latest usable answer since
      the last rejection. */
  function Latest<T>(history: seq<Response<T>>): Option<Cache<T>> {
    if history == [] then None
    else
      var r := history[|history| - 1];
      if Rejected(r) then None
      else if Fresh(r) then Some(Cache(r.etag, r.body.targets))
      else Latest(history[..|history| - 1])
  }

  function Known<T>(history: seq<Response<T>>): Cache<T> {
    if Latest(history).Some? then Latest(history).value else Cache(None, [])
  }

  lemma {:induction false} KnownNext<T>(history: seq<Response<T>>, r: Response<T>)
    ensures Known(history + [r]) ==
      if Rejected(r) then Cache(None, [])
      else if Fresh(r) then Cache(r.etag, r.body.targets)
      else Known(history)
  {
    assert (history + [r])[..|history + [r]| - 1] == history;
  }

  class AgentPullSource<T> {
    var etag: Option<string>
    var targets: seq<T>
    ghost var history: seq<Response<T>>

    /** Etag and targets always come from one and the same answer, the latest since the last rejection. */
    ghost predicate Valid()
      reads this
    {
      Cache(etag, targets) == Known(history)
    }

    constructor ()
      ensures Valid() && history == []
    {
      etag, targets, history := None, [], [];
    }

    method CachedOrErr(msg: string) returns (result: Outcome<T>)
      ensures result == if etag.Some? || targets != [] then Ok(targets) else Err(msg)
    {
      if etag.Some? || targets != [] {
        result := Ok(targets);
      } else {
        result := Err(msg);
      }
    }

    /** One pull: `response` is what came back for a request that carried the cached etag. Whatever is
        returned as Ok is what is known after it; an error comes exactly from an unusable body, or from
        a transient failure when nothing is known. */
    method ListAllEnabledTargets(response: Response<T>) returns (result: Outcome<T>)
      requires Valid()
      modifies this
      ensures Valid() && history == old(history) + [response]
      ensures result.Ok? ==> result.value == Known(history).targets
      ensures result.Err? <==>
        Broken(response) || (Transient(response) && Known(old(history)) == Cache(None, []))
      ensures Rejected(response) ==> Known(history) == Cache(None, [])
      ensures !Fresh(response) && !Rejected(response) ==> etag == old(etag) && targets == old(targets)
      ensures response.Answer? && response.status == 304 ==>
        result == Ok(old(targets)) && etag == old(etag) && targets == old(targets)
      ensures response.Answer? && (response.status == 401 || response.status == 403) ==>
        result == Ok([]) && etag == None && targets == []
      ensures response.Answer? && 200 <= response.status < 300 && response.body.Decoded? ==>
        result == Ok(response.body.targets) && etag == response.etag && targets == response.body.targets
      ensures response.Answer? && 200 <= response.status < 300 && (response.body.Unread? || response.body.Garbled?) ==>
        result.Err? && etag == old(etag) && targets == old(targets)
      ensures !response.Answer? || (200 <= response.status < 300 && response.body.Slow?) ||
              (response.status !in {304, 401, 403} && !(200 <= response.status < 300)) ==>
        etag == old(etag) && targets == old(targets) &&
        (if etag.None? && targets == [] then result.Err? else result == Ok(targets))
    {
      KnownNext(history, response);
      history := history + [response];
      if !response.Answer? {
        result := CachedOrErr("config pull failed or timed out");
        return;
      }
      if response.status == 304 {
        return Ok(targets);
      }
      if response.status == 401 || response.status == 403 {
        etag := None;
        targets := [];
        return Ok([]);
      }
      if !Success(response.status) {
        result := CachedOrErr("unexpected status on config pull");
        return;
      }
      match response.body {
        case Unread => result := Err("reading config-pull body");
        case Slow => result := CachedOrErr("config pull body timed out");
        case Garbled => result := Err("decoding config-pull response");
        case Decoded(pulled) =>
          etag := response.etag;
          targets := pulled;
          result := Ok(pulled);
      }
    }
  }

  /** The history told by status codes: after a usable answer its list is known, through anything but another one
      or a rejection; after a rejection nothing, until a usable answer. */
  lemma {:induction false} KnownSince<T>(before: seq<Response<T>>, r: Response<T>, after: seq<Response<T>>)
    requires forall k :: 0 <= k < |after| ==>
      !after[k].Answer? ||
      !(after[k].status == 401 || after[k].status == 403 || (200 <= after[k].status < 300 && after[k].body.Decoded?))
    ensures r.Answer? && 200 <= r.status < 300 && r.body.Decoded? ==>
      Known(before + [r] + after) == Cache(r.etag, r.body.targets)
    ensures r.Answer? && (r.status == 401 || r.status == 403) ==> Known(before + [r] + after) == Cache(None, [])
    decreases |after|
  {
    if after == [] {
      assert before + [r] + after == before + [r];
      KnownNext(before, r);
    } else {
      var front, last := after[..|after| - 1], after[|after| - 1];
      KnownSince(before, r, front);
      assert before + [r] + after == (before + [r] + front) + [last];
      KnownNext(before + [r] + front, last);
    }
  }

  // ----- Against an honest server (section 13.1.2 of RFC 9110) -----

  /** One exchange: the server's list at the time, and its response to the agent's request. */
  datatype Exchange<T> = Exchange(current: seq<T>, response: Response<T>)

  function Responses<T>(log: seq<Exchange<T>>): (r: seq<Response<T>>)
    ensures |r| == |log|
  {
    if log == [] then [] else Responses(log[..|log| - 1]) + [log[|log| - 1].response]
  }

  /** Two lists the server has held never share a name. */
  ghost predicate Named<T(!new)>(name: seq<T> -> string, log: seq<Exchange<T>>) {
    forall j, k :: 0 <= j < |log| && 0 <= k < |log| && name(log[j].current) == name(log[k].current) ==>
      log[j].current == log[k].current
  }

  /** A fresh answer carries the current list, under its own name if under any; 304 is given only when
      the request named the current list. */
  ghost predicate Honest<T>(name: seq<T> -> string, sent: Option<string>, x: Exchange<T>) {
    (Fresh(x.response) ==>
       x.response.body.targets == x.current &&
       (x.response.etag.Some? ==> x.response.etag.value == name(x.current))) &&
    (x.response.Answer? && x.response.status == 304 ==> sent == Some(name(x.current)))
  }

  /** Each request carried the etag known from the responses before it. */
  ghost predicate HonestLog<T>(name: seq<T> -> string, log: seq<Exchange<T>>)
    decreases |log|
  {
    log == [] ||
    (var before := log[..|log| - 1];
     HonestLog(name, before) && Honest(name, Known(Responses(before)).etag, log[|log| - 1]))
  }

  /** A cached etag names the cached list, and that list was once the server's. */
  lemma {:induction false} EtagNamesTargets<T(!new)>(name: seq<T> -> string, log: seq<Exchange<T>>)
    requires HonestLog(name, log)
    ensures
      var known := Known(Responses(log));
      known.etag.Some? ==>
        known.etag.value == name(known.targets) && exists k :: 0 <= k < |log| && log[k].current == known.targets
    decreases |log|
  {
    if log != [] {
      var before, x := log[..|log| - 1], log[|log| - 1];
      EtagNamesTargets(name, before);
      KnownNext(Responses(before), x.response);
      if Known(Responses(log)).etag.Some? && !Fresh(x.response) {
        var k :| 0 <= k < |before| && before[k].current == Known(Responses(before)).targets;
        assert log[k].current == Known(Responses(log)).targets;
      }
    }
  }

  /** After any honest exchanges, a 304 or a fresh answer leaves the agent with the server's current list. */
  lemma {:induction false} UpToDate<T(!new)>(name: seq<T> -> string, log: seq<Exchange<T>>)
    requires log != [] && HonestLog(name, log) && Named(name, log)
    requires Fresh(log[|log| - 1].response) ||
             (log[|log| - 1].response.Answer? && log[|log| - 1].response.status == 304)
    ensures Known(Responses(log)).targets == log[|log| - 1].current
  {
    var before, x := log[..|log| - 1], log[|log| - 1];
    KnownNext(Responses(before), x.response);
    EtagNamesTargets(name, before);
    if !Fresh(x.response) {
      var k :| 0 <= k < |before| && before[k].current == Known(Responses(before)).targets;
      assert log[k].current == before[k].current;
    }
  }
}
