/** The sample record shared by the Gill decoders and the acquisition session
    (serial_anemometers.h), and the Option type the model uses for values that
    may be absent. */
module AnemometerTypes {

  /** SERIAL_MAX_ANEMOMETERS: the size of every per-port static table. */
  const MaxAnemometers: int := 20

  datatype Option<+T> = None | Some(value: T)

  /** A single-precision value as the decoders store it. Floating point is not
      modelled: a value is the literal 0, the text handed to `atof`, or the
      negated sine or cosine of an integer argument (the argument is the
      direction in degrees, passed as it is to functions that expect radians). */
  datatype Float = Zero | Atof(text: seq<bv8>) | NegSin(arg: int) | NegCos(arg: int)

  /** `float speed[3]` */
  datatype Vec3 = Vec3(x: Float, y: Float, z: Float)

  /** Anemometer_Data_t: velocity, temperature and the wall-clock time of the
      last WindSonic frame. */
  datatype AnemometerData = AnemometerData(speed: Vec3, temperature: Float, t: int)

  /** A slot of the static table before any frame has been decoded. */
  const NoData: AnemometerData := AnemometerData(Vec3(Zero, Zero, Zero), Zero, 0)
}
