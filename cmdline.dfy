/** Reading the provider name from the kernel command line (`parseCmdline`). */
module Cmdline {
  import opened Wrappers
  import opened Strings

  /** The kernel parameter that names the OEM, that is the cloud provider. */
  const OemFlag: string := "coreos.oem.id"

  lemma OemFlagHasNoEquals()
    ensures '=' !in OemFlag && ' ' !in OemFlag && |OemFlag| == 13 && !IsSpace(OemFlag[0])
  {
    assert OemFlag == ['c', 'o', 'r', 'e', 'o', 's', '.', 'o', 'e', 'm', '.', 'i', 'd'];
  }

  /** What one space-separated token records: its value when, once trimmed, it
      is the flag followed by `=`; nothing otherwise, a bare flag included. */
  function TokenValue(token: string): (r: Option<string>)
    ensures r.Some? <==> HasPrefix(TrimSpace(token), OemFlag + "=")
    ensures r.Some? ==> TrimSpace(token) == OemFlag + "=" + r.value
  {
    var parts := Cut(TrimSpace(token), '=');
    OemFlagHasNoEquals();
    CutKey(TrimSpace(token), OemFlag);
    if parts[0] == OemFlag && |parts| == 2 then Some(parts[1]) else None
  }

  /** The value of the last token that records one, or "" when none does. */
  function LastOem(tokens: seq<string>): string {
    if |tokens| == 0 then ""
    else
      match TokenValue(tokens[|tokens| - 1])
      case Some(v) => v
      case None => LastOem(tokens[..|tokens| - 1])
  }

  /** The provider name that the command line `cmdline` selects. */
  function CmdlineOem(cmdline: string): string {
    LastOem(Split(cmdline, ' '))
  }

  /** `parseCmdline`: scans the tokens in order, keeping the latest value. */
  method ParseCmdline(cmdline: string) returns (oem: string)
    ensures oem == CmdlineOem(cmdline)
  {
    oem := "";
    var args := Split(cmdline, ' ');
    var i := 0;
    while i < |args|
      invariant 0 <= i <= |args|
      invariant oem == LastOem(args[..i])
    {
      var parts := Cut(TrimSpace(args[i]), '=');
      var key := parts[0];
      LastOemStep(args, i);
      if key != OemFlag {
        i := i + 1;
        continue;
      }
      if |parts| == 2 {
        oem := parts[1];
      }
      i := i + 1;
    }
    assert args[..i] == args;
  }

  /** One more token: it decides the result when it records a value. */
  lemma LastOemStep(tokens: seq<string>, i: nat)
    requires i < |tokens|
    ensures var parts := Cut(TrimSpace(tokens[i]), '=');
            LastOem(tokens[..i + 1])
            == if parts[0] == OemFlag && |parts| == 2 then parts[1] else LastOem(tokens[..i])
  {
    assert tokens[..i + 1][..i] == tokens[..i];
    assert tokens[..i + 1][i] == tokens[i];
  }

  /** When the token at `j` records a value and no later token does, that
      value is the result. */
  lemma {:induction false} LastOemIsLastMatch(tokens: seq<string>, j: nat)
    requires j < |tokens| && TokenValue(tokens[j]).Some?
    requires forall k :: j < k < |tokens| ==> TokenValue(tokens[k]).None?
    ensures LastOem(tokens) == TokenValue(tokens[j]).value
  {
    if j < |tokens| - 1 {
      var front := tokens[..|tokens| - 1];
      assert front[j] == tokens[j];
      LastOemIsLastMatch(front, j);
    }
  }

  /** When no token records a value the result is the empty string. */
  lemma {:induction false} LastOemNoMatch(tokens: seq<string>)
    requires forall k :: 0 <= k < |tokens| ==> TokenValue(tokens[k]).None?
    ensures LastOem(tokens) == ""
  {
    if |tokens| > 0 {
      LastOemNoMatch(tokens[..|tokens| - 1]);
    }
  }

  /** A bare flag, without `=`, keeps the value recorded so far. */
  lemma BareFlagKeepsValue(tokens: seq<string>, bare: string)
    requires TrimSpace(bare) == OemFlag
    ensures LastOem(tokens + [bare]) == LastOem(tokens)
  {
    OemFlagHasNoEquals();
    assert (tokens + [bare])[..|tokens|] == tokens;
  }

  /** The value is everything after the first `=`, further `=` included, and
      white space around the token is not part of it. */
  lemma TokenValueOf(w1: string, v: string, w2: string)
    requires AllSpace(w1) && AllSpace(w2)
    requires v == [] || !IsSpace(v[|v| - 1])
    ensures TokenValue(w1 + OemFlag + "=" + v + w2) == Some(v)
  {
    var t := OemFlag + "=" + v;
    OemFlagHasNoEquals();
    TrimKeyValue(w1, OemFlag, v, w2);
    KeyValueCut(OemFlag, v);
  }

  lemma TokenValueOfFlag(v: string)
    requires v == [] || !IsSpace(v[|v| - 1])
    ensures TokenValue(OemFlag + "=" + v) == Some(v)
  {
    TokenValueOf("", v, "");
    assert "" + OemFlag + "=" + v + "" == OemFlag + "=" + v;
  }

  lemma TrimKeyValue(w1: string, key: string, v: string, w2: string)
    requires AllSpace(w1) && AllSpace(w2)
    requires key != [] && !IsSpace(key[0])
    requires v == [] || !IsSpace(v[|v| - 1])
    ensures TrimSpace(w1 + key + "=" + v + w2) == key + "=" + v
  {
    var t := key + "=" + v;
    assert w1 + key + "=" + v + w2 == w1 + t + w2;
    assert t[0] == key[0];
    if v == [] {
      assert t[|t| - 1] == '=';
    } else {
      assert t[|t| - 1] == v[|v| - 1];
    }
    TrimSpaceNoop(t);
    TrimSpaceSurrounded(w1, t, w2);
  }

  /** A token that records a value decides the result over all before it. */
  lemma LastOemAppend(tokens: seq<string>, t: string)
    requires TokenValue(t).Some?
    ensures LastOem(tokens + [t]) == TokenValue(t).value
  {
  }

  lemma SplitLast(front: string, last: string)
    requires ' ' !in last
    ensures Split(front + " " + last, ' ') == Split(front, ' ') + [last]
  {
    SplitAppend(front, last, ' ');
    SplitNoSep(last, ' ');
  }

  /** A later `coreos.oem.id=v` token overrides every earlier one. */
  lemma LaterTokenWins(front: string, v: string)
    requires v == [] || !IsSpace(v[|v| - 1])
    requires ' ' !in v
    ensures CmdlineOem(front + " " + OemFlag + "=" + v) == v
  {
    var last := OemFlag + "=" + v;
    assert front + " " + OemFlag + "=" + v == front + " " + last;
    assert ' ' !in last by {
      OemFlagHasNoEquals();
    }
    SplitLast(front, last);
    TokenValueOfFlag(v);
    LastOemAppend(Split(front, ' '), last);
  }

  /** The last occurrence wins: an example of `parseCmdline`. */
  lemma ExampleLastOccurrence()
    ensures CmdlineOem("foo=1 coreos.oem.id=azure bar coreos.oem.id=ec2") == "ec2"
  {
    assert "foo=1 coreos.oem.id=azure bar coreos.oem.id=ec2"
        == "foo=1 coreos.oem.id=azure bar" + " " + OemFlag + "=" + "ec2";
    LaterTokenWins("foo=1 coreos.oem.id=azure bar", "ec2");
  }

  /** White space after the only token, such as the newline that ends
      `/proc/cmdline`, is not part of the value. */
  lemma TrailingSpaceTrimmed(v: string, w: string)
    requires v == [] || !IsSpace(v[|v| - 1])
    requires ' ' !in v && ' ' !in w && AllSpace(w)
    ensures CmdlineOem(OemFlag + "=" + v + w) == v
  {
    var t := OemFlag + "=" + v + w;
    assert ' ' !in t by {
      OemFlagHasNoEquals();
    }
    SplitNoSep(t, ' ');
    assert TokenValue(t) == Some(v) by {
      TokenValueOf("", v, w);
      assert "" + OemFlag + "=" + v + w == t;
    }
    LastOemAppend([], t);
    assert [] + [t] == [t];
  }

  lemma ExampleTrailingNewline()
    ensures CmdlineOem("coreos.oem.id=gce\n") == "gce"
  {
    assert "coreos.oem.id=gce\n" == OemFlag + "=" + "gce" + "\n";
    TrailingSpaceTrimmed("gce", "\n");
  }
}
