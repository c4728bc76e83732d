/**
 The repository's test scenarios, plus the strict retention boundary, with
 the sleeps replaced by explicit time points: a sleep of `s` between two clock
 readings means the later reading is at least `s` after the earlier one.
 */
module Scenarios {
  import opened Wrappers
  import opened ExpiringDict

  /**
   Default time-to-live 10: inserting "a" displaces nothing and reads back 1;
   an `Expire` sampled 20 or more later removes it.
   */
  lemma ExpiresAfterDefaultTtl(t0: Time, now: Time)
    requires now >= t0 + 20
    ensures var d0 := New<string, int>(10);
            var r := Insert(d0, "a", 1, t0);
            && r.previous == None
            && Get(r.dict, "a") == Some(1)
            && Get(Expire(r.dict, now), "a") == None
  {
  }

  /**
   Default time-to-live 10, "a" inserted at `ta` with the default and "b" at
   `tb` with time-to-live 30: the first `Expire` removes "a" and keeps "b";
   a second one at or after `tb + 30` removes "b" as well.
   */
  lemma DefaultAndCustomTtl(ta: Time, tb: Time, now1: Time, now2: Time)
    requires ta + 20 <= now1 < tb + 30
    requires now2 >= tb + 30
    ensures var d0 := New<string, int>(10);
            var ra := Insert(d0, "a", 1, ta);
            var rb := InsertWithTtl(ra.dict, "b", 2, 30, tb);
            var d1 := Expire(rb.dict, now1);
            var d2 := Expire(d1, now2);
            && ra.previous == None
            && rb.previous == None
            && Get(rb.dict, "a") == Some(1)
            && Get(d1, "a") == None
            && Get(d1, "b") == Some(2)
            && Get(d2, "b") == None
            && d2.container == map[]
  {
  }

  /**
   The strict boundary: with time-to-live 10 from `t0`, "b" with 30 from `t0`,
   an `Expire` exactly at `t0 + 30` removes "b".
   */
  lemma BoundaryIsExpired(t0: Time)
    ensures var d := InsertWithTtl(Insert(New<string, int>(10), "a", 1, t0).dict, "b", 2, 30, t0).dict;
            && Get(Expire(d, t0 + 29), "b") == Some(2)
            && Get(Expire(d, t0 + 30), "b") == None
            && Get(Expire(d, t0 + 9), "a") == Some(1)
            && Get(Expire(d, t0 + 10), "a") == None
  {
  }
}
