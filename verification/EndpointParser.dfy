/** src/logging/endpoint.cpp: the constructor that reads an endpoint's text, as it advances its
    position through the text. A failed requirement throws; here it is the absence of a result. */
module EndpointParser {
  import opened Wrappers
  import opened EndpointText

  /** read_until for the closing mark */
  method ReadUntilClose(s: string, it: nat) returns (r: Option<string>, next: nat)
    requires it <= |s|
    ensures r.Some? <==> FindClose(s, it) < |s|
    ensures r.Some? ==> r.value == s[it..FindClose(s, it)] && next == FindClose(s, it) + 2
    ensures next <= |s|
  {
    var j := it;
    while j + 1 < |s| && !(s[j] == '>' && s[j + 1] == '>')
      invariant it <= j <= |s| && FindClose(s, j) == FindClose(s, it)
    {
      j := j + 1;
    }
    if j + 1 >= |s| {
      return None, it;
    }
    return Some(s[it..j]), j + 2;
  }

  method RequireString(s: string, it: nat, what: string) returns (ok: bool, next: nat)
    requires it <= |s|
    ensures ok <==> |what| <= |s| - it && s[it..it + |what|] == what
    ensures next <= |s| && (ok ==> next == it + |what|)
  {
    if |s| - it < |what| {
      return false, it;
    }
    var k := 0;
    while k < |what|
      invariant k <= |what| && forall j | 0 <= j < k :: what[j] == s[it..it + |what|][j]
    {
      assert s[it..it + |what|][k] == s[it + k];
      if s[it + k] != what[k] {
        return false, it;
      }
      k := k + 1;
    }
    return true, it + |what|;
  }

  /** One letter, the rest of the opening, and the text up to the closing mark. */
  method RequireBlock(s: string, it: nat, letter: char, rest: string) returns (r: Option<string>, next: nat)
    requires it <= |s|
    ensures match Block(s, it, [letter] + rest)
            case None => r == None
            case Some((raw, n)) => r == Some(raw) && next == n
    ensures next <= |s|
  {
    if it == |s| || s[it] != letter {
      assert |s| - it >= 1 + |rest| ==> s[it..it + 1 + |rest|][0] == s[it];
      return None, it;
    }
    var ok, i := RequireString(s, it + 1, rest);
    Opening(s, it, letter, rest);
    if !ok {
      return None, it;
    }
    r, next := ReadUntilClose(s, i);
  }

  lemma Opening(s: string, it: nat, letter: char, rest: string)
    requires it < |s| && s[it] == letter
    ensures |rest| <= |s| - (it + 1) ==>
              (s[it..it + 1 + |rest|] == [letter] + rest <==> s[it + 1..it + 1 + |rest|] == rest)
  {
    if |rest| <= |s| - (it + 1) {
      assert s[it..it + 1 + |rest|] == [s[it]] + s[it + 1..it + 1 + |rest|];
      assert s[it..it + 1 + |rest|][1..] == s[it + 1..it + 1 + |rest|];
      assert ([letter] + rest)[1..] == rest;
    }
  }

  method ParseEndpoint(s: string) returns (r: Option<Endpoint>)
    ensures r == Parse(s)
  {
    hide Block, ParseTcp, ParseSocket;
    var asTcp: Option<Tcp>, asSocket: Option<Socket> := None, None;
    assert ['T'] + "CP: <<" == "TCP: <<" && ['S'] + "OCKET: <<" == "SOCKET: <<";
    var raw, it := RequireBlock(s, 0, 'T', "CP: <<");
    if raw.Some? {
      asTcp := ParseTcp(raw.value);
      if asTcp == None {
        return None;
      }
    } else {
      raw, it := RequireBlock(s, 0, 'S', "OCKET: <<");
      if raw == None {
        return None;
      }
      asSocket := ParseSocket(raw.value);
      if asSocket == None {
        return None;
      }
    }
    if it != |s| {
      var ok;
      ok, it := RequireString(s, it, ", ");
      if !ok {
        return None;
      }
    }
    if it != |s| {
      if asTcp.Some? {
        raw, it := RequireBlock(s, it, 'S', "OCKET: <<");
        if raw == None || it != |s| {
          return None;
        }
        asSocket := ParseSocket(raw.value);
        if asSocket == None {
          return None;
        }
      } else {
        raw, it := RequireBlock(s, it, 'T', "CP: <<");
        if raw == None || it != |s| {
          return None;
        }
        asTcp := ParseTcp(raw.value);
        if asTcp == None {
          return None;
        }
      }
    }
    return Some(Endpoint(asTcp, asSocket));
  }
}
