/** getCommandEquivalencies(): the table of equivalent command names, Windows
    names to Unix names and back, and the proof that it is an involution. */
module CommandEquivalences {

  /** The first nine puts of getCommandEquivalencies(): Windows names to Unix names. */
  function WindowsToUnix(): map<string, string> {
    map["dir" := "ls", "type" := "cat", "del" := "rm", "copy" := "cp", "move" := "mv",
        "cls" := "clear", "ipconfig" := "ifconfig", "tasklist" := "ps", "findstr" := "grep"]
  }

  /** The last nine puts: Unix names back to Windows names. */
  function UnixToWindows(): map<string, string> {
    map["ls" := "dir", "cat" := "type", "rm" := "del", "cp" := "copy", "mv" := "move",
        "clear" := "cls", "ifconfig" := "ipconfig", "ps" := "tasklist", "grep" := "findstr"]
  }

  /** getCommandEquivalencies(): the eighteen puts into one HashMap. */
  function CommandEquivalencies(): map<string, string> {
    WindowsToUnix() + UnixToWindows()
  }

  /** No name is both a Windows key and a Unix key. */
  lemma HalvesDisjoint()
    ensures WindowsToUnix().Keys !! UnixToWindows().Keys
  {
  }

  /** Each half has nine keys. */
  lemma WindowsHalfSize()
    ensures |WindowsToUnix()| == 9
  {
  }

  lemma UnixHalfSize()
    ensures |UnixToWindows()| == 9
  {
  }

  /** The two halves undo each other. */
  lemma HalvesInverse()
    ensures forall k :: k in WindowsToUnix() ==>
      WindowsToUnix()[k] in UnixToWindows() && UnixToWindows()[WindowsToUnix()[k]] == k
    ensures forall k :: k in UnixToWindows() ==>
      UnixToWindows()[k] in WindowsToUnix() && WindowsToUnix()[UnixToWindows()[k]] == k
  {
  }

  /** The table has 18 entries and is an involution: every value is a key, and
      looking up a value gives back the key it came from. */
  lemma EquivalencesInvolution()
    ensures |CommandEquivalencies()| == 18
    ensures forall k :: k in CommandEquivalencies() ==>
      CommandEquivalencies()[k] in CommandEquivalencies() && CommandEquivalencies()[CommandEquivalencies()[k]] == k
  {
    var w, u := WindowsToUnix(), UnixToWindows();
    var m := CommandEquivalencies();
    HalvesDisjoint();
    WindowsHalfSize();
    UnixHalfSize();
    HalvesInverse();
    assert m.Keys == w.Keys + u.Keys;
    assert |m.Keys| == |w.Keys| + |u.Keys|;
    forall k | k in m
      ensures m[k] in m && m[m[k]] == k
    {
      if k in u {
        assert m[k] == u[k] && u[k] in w && u[k] !in u;
      } else {
        assert m[k] == w[k] && w[k] in u;
      }
    }
  }
}
