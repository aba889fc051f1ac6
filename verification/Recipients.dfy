/**
 * The recipient setting: one string holding one address, or several joined
 * by commas. A string with a comma is cut at every comma, with no trimming
 * and with empty pieces kept; a string without one is the only recipient.
 */
module Recipients {

  /** `s.split(",")`: the pieces between the commas. */
  function SplitOnComma(s: string): (pieces: seq<string>)
    ensures |pieces| >= 1
    ensures forall p | p in pieces :: ',' !in p
  {
    if s == [] then [[]]
    else
      var rest := SplitOnComma(s[1..]);
      if s[0] == ',' then [[]] + rest
      else [[s[0]] + rest[0]] + rest[1..]
  }

  /** `",".join(pieces)`. */
  function JoinWithComma(pieces: seq<string>): string
    requires |pieces| >= 1
  {
    if |pieces| == 1 then pieces[0]
    else pieces[0] + [','] + JoinWithComma(pieces[1..])
  }

  /** How many commas `s` holds. */
  function CommaCount(s: string): nat
  {
    if s == [] then 0
    else (if s[0] == ',' then 1 else 0) + CommaCount(s[1..])
  }

  /** The recipient list made from the setting. */
  function RecipientList(setting: string): (recipients: seq<string>)
    ensures |recipients| == CommaCount(setting) + 1
    ensures JoinWithComma(recipients) == setting
    ensures forall r | r in recipients :: ',' !in r
    ensures ',' !in setting ==> recipients == [setting]
  {
    SplitJoin(setting);
    SplitCount(setting);
    if ',' in setting then SplitOnComma(setting)
    else
      SplitWithoutComma(setting);
      [setting]
  }

  /** Joining the pieces puts the commas back where they were. */
  lemma {:induction false} SplitJoin(s: string)
    ensures JoinWithComma(SplitOnComma(s)) == s
  {
    if s != [] {
      var rest := SplitOnComma(s[1..]);
      SplitJoin(s[1..]);
      if s[0] == ',' {
        assert s == [','] + s[1..];
      } else if |rest| == 1 {
        assert s == [s[0]] + s[1..];
      } else {
        var r := [[s[0]] + rest[0]] + rest[1..];
        assert r[1..] == rest[1..];
        assert JoinWithComma(r) == [s[0]] + (rest[0] + [','] + JoinWithComma(rest[1..]));
        assert s == [s[0]] + s[1..];
      }
    }
  }

  /** There is one piece more than there are commas. */
  lemma {:induction false} SplitCount(s: string)
    ensures |SplitOnComma(s)| == CommaCount(s) + 1
  {
    if s != [] {
      SplitCount(s[1..]);
    }
  }

  /** Without a comma the split is the string itself, so both branches of the source agree. */
  lemma {:induction false} SplitWithoutComma(s: string)
    requires ',' !in s
    ensures SplitOnComma(s) == [s]
  {
    if s != [] {
      assert ',' !in s[1..];
      SplitWithoutComma(s[1..]);
      assert s == [s[0]] + s[1..];
    }
  }

  /** Splitting comma-free pieces after joining them gives the pieces back. */
  lemma {:induction false} JoinSplit(pieces: seq<string>)
    requires |pieces| >= 1
    requires forall p | p in pieces :: ',' !in p
    ensures SplitOnComma(JoinWithComma(pieces)) == pieces
    decreases |pieces|, |pieces[0]|
  {
    if |pieces| == 1 {
      SplitWithoutComma(pieces[0]);
    } else if pieces[0] == [] {
      var tail := JoinWithComma(pieces[1..]);
      assert JoinWithComma(pieces) == [','] + tail;
      assert ([','] + tail)[1..] == tail;
      JoinSplit(pieces[1..]);
      assert pieces == [[]] + pieces[1..];
    } else {
      var p := pieces[0];
      var shorter := [p[1..]] + pieces[1..];
      assert shorter[1..] == pieces[1..];
      assert pieces[0] in pieces;
      assert p[0] in p;
      assert ',' !in p[1..] by {
        forall i | 0 <= i < |p[1..]| ensures p[1..][i] != ',' {
          assert p[1..][i] == p[i + 1] && p[i + 1] in p;
        }
      }
      assert forall q | q in shorter :: ',' !in q by {
        forall q | q in shorter ensures ',' !in q {
          if q != p[1..] {
            assert q in pieces[1..];
            var i :| 0 <= i < |pieces[1..]| && pieces[1..][i] == q;
            assert pieces[i + 1] in pieces;
          }
        }
      }
      JoinSplit(shorter);
      var s := JoinWithComma(pieces);
      assert s == [p[0]] + JoinWithComma(shorter);
      assert s[0] == p[0] != ',';
      assert s[1..] == JoinWithComma(shorter);
      assert p == [p[0]] + p[1..];
    }
  }
}
