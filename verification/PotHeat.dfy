/** When the contact may be closed, and how heating starts. */
module PotHeat {
  import opened Pot
  import opened PotSafety
  import Ntc

  /** Right after any control task the contact is closed only below the target of the moment. */
  predicate BelowTarget(p: Pot) {
    match p.state
    case Heat =>
      (match p.mode
       case Boil100 => p.temp < BOIL_TEMP_C && !p.boilConfirm
       case Direct55 => p.temp < 55
       case Direct80 => p.temp < 80)
    case Warm => p.temp <= p.warmSet + WARM_HYST_C
    case _ => false
  }

  lemma ClosedOnlyBelowTarget(p: Pot, adc: nat)
    requires Valid(p)
    ensures Control(p, adc).heater ==> BelowTarget(Control(p, adc))
  {
    hide Ntc.Celsius, Sense;
    SenseSampled(p, adc);
    assert p.warmSet + WARM_HYST_C < 256;
    var q := Sense(p, adc);
    assert q.warmSet + WARM_HYST_C < 256;
  }

  /** Every way into HEAT starts such an episode afresh. */
  lemma HeatEntryIsFresh(p: Pot, func: bool, onoff: bool)
    requires Valid(p) && !p.state.Heat? && HandleButtons(p, func, onoff).state.Heat?
    ensures var q := HandleButtons(p, func, onoff); q.heatSeconds == 0 && q.glitch == 0 && q.slope == Refill(q.adc) && Healthy(q.adc)
  {
    hide Ntc.Celsius, Refill;
  }
}
