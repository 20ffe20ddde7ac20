/** The single-board-computer classification (src/raspberrypi/gpio/sbc_version.h).
    Only the enumeration is modelled: how the device tree is read and mapped onto a
    variant is not part of this model, so the two board predicates appear as
    parameters wherever they are consulted. */
module SbcVersion {

  /** sbc_version_type, in declaration order. */
  datatype SbcVersionType =
    | Unknown
    | RaspberryPi1
    | RaspberryPi23
    | RaspberryPi4
    | BananaPiM2Berry
    | BananaPiM2Zero
    | BananaPiM3
    | BananaPiM4
}
