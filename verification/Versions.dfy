/** The releases of the format and the predicates their layouts branch on. */
module Versions {
  datatype Version = R14 | R2000 | R2004 | R2007 | R2010 | R2013 | R2018 {
    predicate IsR2004Plus() {
      !R14? && !R2000?
    }

    predicate IsR2004Family() {
      R2004? || R2010? || R2013? || R2018?
    }

    predicate IsR13R15() {
      R14? || R2000?
    }

    predicate IsR2007Plus() {
      IsR2004Plus() && !R2004?
    }

    predicate IsR2010Plus() {
      R2010? || R2013? || R2018?
    }

    predicate IsR2013Plus() {
      R2013? || R2018?
    }

    predicate HasObjectSizeField() {
      R2000? || R2004? || R2007?
    }
  }
}
