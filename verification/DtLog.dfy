/** The estimate of the decimal exponent: multiplication by an approximation of the logarithm of 2. */
module DtLog {
  import opened DtArith

  /** mul_log2_radix for radix 10; the shift of a negative product rounds down. */
  function MulLog2Radix(a: int): int { a * 0x4d104d / 0x100_0000 }

  /** 351 / 1166 < log10(2) < 146 / 485 */
  lemma {:induction false} LogBounds()
    ensures Pow(10, 351) < Pow(2, 1166) && Pow(2, 485) < Pow(10, 146)
  {
    PowProduct(5, 2, 351);
    PowProduct(5, 2, 146);
    PowAdd(2, 815, 351);
    PowAdd(2, 339, 146);
    FiveTo351();
    FiveTo146();
    TwoTo815();
    TwoTo339();
    hide Pow;
    MulStrict(Pow(5, 351), Pow(2, 815), Pow(2, 351));
    MulStrict(Pow(2, 339), Pow(5, 146), Pow(2, 146));
  }

  lemma {:induction false} FiveTo351()
    ensures Pow(5, 351) ==
      218007543808417316859394750271862213030225752796706897967362564702536132031772269377793888446840673379742251272845082899517162582833083868241508921319969414132216266131608059121791046085920720322728669324403860674266297792200930416584014892578125
  {
    assert Pow(5, 9) == 1953125;
    hide Pow;
    PowAdd(5, 9, 9);
    assert Pow(5, 18) ==
      3814697265625;
    PowAdd(5, 18, 9);
    assert Pow(5, 27) ==
      7450580596923828125;
    PowAdd(5, 27, 27);
    assert Pow(5, 54) ==
      55511151231257827021181583404541015625;
    PowAdd(5, 54, 54);
    assert Pow(5, 108) ==
      3081487911019577364889564708135883709660962637144621112383902072906494140625;
    PowAdd(5, 108, 108);
    assert Pow(5, 216) ==
      9495567745759798747473242269561957154220965833619944966279779990829008230644811159033118931771413600093027632988162967109246892505325376987457275390625;
    PowAdd(5, 216, 108);
    assert Pow(5, 324) ==
      29260477216826239544724058836616728561968895867463645727107221586627395479212497809291469359620403959019086191446375122744845858874468320028826682711297055794317158844827782681816469496395571869840068757184781134128570556640625;
    PowAdd(5, 324, 27);
  }

  lemma {:induction false} FiveTo146()
    ensures Pow(5, 146) ==
      1121038771459853656738983666631932905024209553501212617405654627111832866148688481189310550689697265625
  {
    assert Pow(5, 9) == 1953125;
    assert Pow(5, 2) == 25;
    hide Pow;
    PowAdd(5, 9, 9);
    assert Pow(5, 18) ==
      3814697265625;
    PowAdd(5, 18, 18);
    assert Pow(5, 36) ==
      14551915228366851806640625;
    PowAdd(5, 36, 36);
    assert Pow(5, 72) ==
      211758236813575084767080625169910490512847900390625;
    PowAdd(5, 72, 72);
    assert Pow(5, 144) ==
      44841550858394146269559346665277316200968382140048504696226185084473314645947539247572422027587890625;
    PowAdd(5, 144, 2);
  }

  lemma {:induction false} TwoTo815()
    ensures Pow(2, 815) ==
      218497496936607064853048583478354175496839440705647678599864575975883972208808167719614290358159090999064327310325620422930884252602183354953346451122776638950446123565515229051718149272758321962318725648740732173736042431692028683588857933856768
  {
    assert Pow(2, 16) == 65536;
    assert Pow(2, 15) == 32768;
    hide Pow;
    PowAdd(2, 16, 16);
    assert Pow(2, 32) ==
      4294967296;
    PowAdd(2, 32, 32);
    assert Pow(2, 64) ==
      18446744073709551616;
    PowAdd(2, 64, 64);
    assert Pow(2, 128) ==
      340282366920938463463374607431768211456;
    PowAdd(2, 128, 128);
    assert Pow(2, 256) ==
      115792089237316195423570985008687907853269984665640564039457584007913129639936;
    PowAdd(2, 256, 256);
    assert Pow(2, 512) ==
      13407807929942597099574024998205846127479365820592393377723561443721764030073546976801874298166903427690031858186486050853753882811946569946433649006084096;
    PowAdd(2, 512, 256);
    assert Pow(2, 768) ==
      1552518092300708935148979488462502555256886017116696611139052038026050952686376886330878408828646477950487730697131073206171580044114814391444287275041181139204454976020849905550265285631598444825262999193716468750892846853816057856;
    PowAdd(2, 768, 32);
    assert Pow(2, 800) ==
      6668014432879854274079851790721257797144758322315908160396257811764037237817632071521432200871554290742929910593433240445888801654119365080363356052330830046095157579514014558463078285911814024728965016135886601981690748037476461291163877376;
    PowAdd(2, 800, 15);
  }

  lemma {:induction false} TwoTo339()
    ensures Pow(2, 339) ==
      1119872371088902105278721140284222139060822748617324767449994550481895935590080472690438746635803557888
  {
    assert Pow(2, 16) == 65536;
    assert Pow(2, 3) == 8;
    hide Pow;
    PowAdd(2, 16, 16);
    assert Pow(2, 32) ==
      4294967296;
    PowAdd(2, 32, 32);
    assert Pow(2, 64) ==
      18446744073709551616;
    PowAdd(2, 64, 64);
    assert Pow(2, 128) ==
      340282366920938463463374607431768211456;
    PowAdd(2, 128, 128);
    assert Pow(2, 256) ==
      115792089237316195423570985008687907853269984665640564039457584007913129639936;
    PowAdd(2, 256, 64);
    assert Pow(2, 320) ==
      2135987035920910082395021706169552114602704522356652769947041607822219725780640550022962086936576;
    PowAdd(2, 320, 16);
    assert Pow(2, 336) ==
      139984046386112763159840142535527767382602843577165595931249318810236991948760059086304843329475444736;
    PowAdd(2, 336, 3);
  }

  /** `10^t <= 2^a` when `t / a` is below the lower bound of the logarithm; strict when `t > 0`. */
  lemma {:induction false} TenBelowTwo(t: nat, a: nat)
    requires 1166 * t <= 351 * a
    ensures Pow(10, t) <= Pow(2, a) && (t > 0 ==> Pow(10, t) < Pow(2, a))
  {
    LogBounds();
    PowOne(10);
    PowOne(2);
    if t > 0 {
      PowPower(10, 351, t);
      PowPower(2, 1166, t);
      PowBaseStrict(Pow(10, 351), Pow(2, 1166), t);
      PowMono(2, 1166 * t, 351 * a);
      PowPower(10, t, 351);
      PowPower(2, a, 351);
      hide Pow;
      assert 351 * t == t * 351 && 351 * a == a * 351;
      if Pow(10, t) >= Pow(2, a) { PowBase(Pow(2, a), Pow(10, t), 351); }
    } else {
      PowMono(2, 0, a);
    }
  }

  /** `2^a <= 10^t` when `t / a` is above the upper bound; strict when `t > 0`. */
  lemma {:induction false} TwoBelowTen(t: nat, a: nat)
    requires 146 * a <= 485 * t
    ensures Pow(2, a) <= Pow(10, t) && (t > 0 ==> Pow(2, a) < Pow(10, t))
  {
    LogBounds();
    PowOne(10);
    PowOne(2);
    if a > 0 {
      PowPower(2, 485, a);
      PowPower(10, 146, a);
      PowBaseStrict(Pow(2, 485), Pow(10, 146), a);
      PowMono(10, 146 * a, 485 * t);
      PowPower(10, t, 485);
      PowPower(2, a, 485);
      hide Pow;
      assert 485 * t == t * 485 && 485 * a == a * 485;
      if Pow(2, a) >= Pow(10, t) { PowBase(Pow(10, t), Pow(2, a), 485); }
    } else {
      if t > 0 { PowStrict(10, 0, t); }
    }
  }

  /** The estimate is exact over the range of exponents of binary64: with `t == MulLog2Radix(a)`, `10^t <= 2^a < 10^(t + 1)`;
      for negative exponents read as `2^-a <= 10^-t` and `10^(-t - 1) < 2^-a`. */
  lemma {:induction false} LogExact(a: int)
    requires -1074 <= a <= 1023
    ensures var t := MulLog2Radix(a);
            if a >= 0 then t >= 0 && Pow(10, t) <= Pow(2, a) < Pow(10, t + 1)
            else t < 0 && Pow(2, -a) <= Pow(10, -t) && Pow(10, -t - 1) < Pow(2, -a)
  {
    var t := MulLog2Radix(a);
    if a >= 0 {
      EstimateUp(a, t);
      hide Pow;
      TenBelowTwo(t, a);
      TwoBelowTen(t + 1, a);
    } else {
      EstimateDown(-a, -t);
      hide Pow;
      TwoBelowTen(-t, -a);
      TenBelowTwo(-t - 1, -a);
      if t == -1 { PowOne(10); PowOne(2); PowStrict(2, 0, -a); }
    }
  }

  lemma EstimateUp(a: int, t: int)
    requires 0 <= a <= 1023 && t == a * 0x4d104d / 0x100_0000
    ensures 0 <= t && 1166 * t <= 351 * a && 146 * a <= 485 * (t + 1)
  {
  }

  lemma EstimateDown(a: int, t: int)
    requires 1 <= a <= 1074 && -t == -a * 0x4d104d / 0x100_0000
    ensures t >= 1 && 146 * a <= 485 * t && 1166 * (t - 1) <= 351 * a
  {
  }
}
