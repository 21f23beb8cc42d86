/**
 * The clue-number annotation a puzzle adds to the name of every fact and
 * rule (getClueNumMsg in Puzzle.java): the label " (clue 3)", " (clues
 * 3,4)", " (intro)" or " (analysis ...)" goes just before the name's last
 * character, which is normally its closing full stop.
 */
module ClueMessages {
  import opened Wrappers

  /** The label for a non-empty clue number. */
  function Label(clueNum: string): (s: string)
    requires |clueNum| >= 1
    ensures clueNum[0] == 'A' ==> |s| >= 8 && s[..8] == "analysis"
    ensures clueNum[0] == '0' ==> s == "intro"
    ensures clueNum[0] != 'A' && clueNum[0] != '0' ==>
              |s| >= |clueNum| + 5 && s[..4] == "clue" && s[|s| - |clueNum|..] == clueNum
  {
    match clueNum[0]
    case 'A' => "analysis" + (if |clueNum| > 1 then " " + clueNum[1..] else "")
    case '0' => "intro"
    case _ => "clue" + (if ',' in clueNum then "s" else "") + " " + clueNum
  }

  /**
   * getClueNumMsg: the name unchanged when there is no clue number or the
   * name is empty; otherwise the name with " (" + label + ")" inserted
   * before its last character.
   */
  function ClueNumMsg(clueNum: Option<string>, name: string): (r: string)
    ensures clueNum.None? || |clueNum.value| < 1 || |name| < 1 ==> r == name
    ensures clueNum.Some? && |clueNum.value| >= 1 && |name| >= 1 ==>
              var i := |name| - 1;
              var ins := " (" + Label(clueNum.value) + ")";
              |r| == |name| + |ins| && r[..i] == name[..i] && r[i..i + |ins|] == ins && r[|r| - 1] == name[i]
  {
    if clueNum.None? || |clueNum.value| < 1 then name
    else
      var i := |name| - 1;
      if i < 0 then name
      else name[..i] + " (" + Label(clueNum.value) + ")" + [name[i]]
  }

  /** Removes an inserted label of length k from a message: the inverse of the insertion. */
  function Strip(msg: string, k: nat): (name: string)
    requires |msg| >= k + 1
    ensures |name| == |msg| - k
  {
    msg[..|msg| - k - 1] + [msg[|msg| - 1]]
  }

  /** Taking the inserted text back out of a message gives the original name. */
  lemma StripClueNumMsg(clueNum: string, name: string)
    requires |clueNum| >= 1 && |name| >= 1
    ensures var msg := ClueNumMsg(Some(clueNum), name);
            Strip(msg, |Label(clueNum)| + 3) == name
  {
    var msg := ClueNumMsg(Some(clueNum), name);
    var i := |name| - 1;
    assert msg[..|msg| - (|Label(clueNum)| + 3) - 1] == name[..i];
    assert name == name[..i] + [name[i]];
  }

  /** A clue number that is neither an intro nor an analysis names its clue or clues; the plural exactly when it lists several. */
  lemma ClueLabelPlural(clueNum: string)
    requires |clueNum| >= 1 && clueNum[0] != 'A' && clueNum[0] != '0'
    ensures Label(clueNum) == (if ',' in clueNum then "clues " else "clue ") + clueNum
  {
  }

  /** Every clue number starting with '0' gives any name the same message, so the number itself is dropped. */
  lemma IntroLabelsAgree(c1: string, c2: string, name: string)
    requires |c1| >= 1 && |c2| >= 1 && c1[0] == '0' && c2[0] == '0'
    ensures ClueNumMsg(Some(c1), name) == ClueNumMsg(Some(c2), name)
  {
  }

  /** Apart from intro numbers, the label determines the clue number. */
  lemma LabelInjective(c1: string, c2: string)
    requires |c1| >= 1 && |c2| >= 1 && c1[0] != '0' && c2[0] != '0'
    requires Label(c1) == Label(c2)
    ensures c1 == c2
  {
    var l := Label(c1);
    assert (c1[0] == 'A') == (l[0] == 'a') == (c2[0] == 'A');
    assert c1 == [c1[0]] + c1[1..] && c2 == [c2[0]] + c2[1..];
    if c1[0] == 'A' {
      assert (|l| == 8) == (|c1| == 1) == (|c2| == 1);
      if |c1| > 1 {
        assert c1[1..] == l[9..] == c2[1..];
      }
    } else {
      var p := if l[4] == 's' then 6 else 5;
      assert l[4] == (if ',' in c1 then 's' else ' ') == (if ',' in c2 then 's' else ' ');
      assert c1 == l[p..] == c2;
    }
  }
}
