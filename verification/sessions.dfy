/** The 16-bit session counter shared by everything that numbers its messages. */
module Sessions {
  import opened Bytes

  /** The counter after one more message. */
  function Bump(session: uint16): uint16 {
    if session == 0xFFFF then 0 else session + 1
  }

  /** The session id of the k-th message, counting from 0: the counter starts at 1. */
  function SessionOf(k: nat): uint16 {
    if k == 0 then 1 else Bump(SessionOf(k - 1))
  }

  /** The k-th id in closed form: the counter wraps through 0. */
  lemma {:induction false} SessionClosedForm(k: nat)
    ensures SessionOf(k) == (1 + k) % 0x1_0000
  {
    if k > 0 {
      SessionClosedForm(k - 1);
      var q := k / 0x1_0000;
      assert k == q * 0x1_0000 + SessionOf(k - 1);
      if SessionOf(k - 1) == 0xFFFF {
        assert 1 + k == (q + 1) * 0x1_0000;
      }
    }
  }

  /** Two messages carry the same id exactly when a multiple of 65536 lies between them, so any 65536
      consecutive messages carry distinct ids. */
  lemma SameSession(i: nat, j: nat)
    requires i <= j
    ensures SessionOf(i) == SessionOf(j) <==> (j - i) % 0x1_0000 == 0
    ensures 0 < j - i < 0x1_0000 ==> SessionOf(i) != SessionOf(j)
  {
    SessionClosedForm(i);
    SessionClosedForm(j);
    SameResidue(1 + i, 1 + j, (1 + i) / 0x1_0000, (1 + j) / 0x1_0000, (j - i) / 0x1_0000);
  }

  lemma SameResidue(a: nat, b: nat, p: int, q: int, k: int)
    requires p * 0x1_0000 <= a < p * 0x1_0000 + 0x1_0000
    requires q * 0x1_0000 <= b < q * 0x1_0000 + 0x1_0000
    requires k * 0x1_0000 <= b - a < k * 0x1_0000 + 0x1_0000
    ensures a - p * 0x1_0000 == b - q * 0x1_0000 <==> b - a == k * 0x1_0000
  {
  }
}
