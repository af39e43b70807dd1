/** One step of the semi-implicit Euler integrator for position, velocity and acceleration. */
module Kinematics {
  import opened Vectors

  /** The `euler_data` record: position `p`, velocity `v` and acceleration `a`. */
  datatype EulerData = EulerData(p: Vec3, v: Vec3, a: Vec3)

  /** Advances the velocity by `a * dt` first, then moves the position with the
      NEW velocity. Unfolded, the position gains `v*dt + a*dt*dt` (not `a*dt*dt/2`
      as the exact solution would, and not `v*dt` alone as explicit Euler would). */
  function Euler(data: EulerData, dt: real): (r: EulerData)
    ensures r.a == data.a
    ensures r.v.x == data.v.x + data.a.x * dt
    ensures r.v.y == data.v.y + data.a.y * dt
    ensures r.v.z == data.v.z + data.a.z * dt
    ensures r.p.x == data.p.x + data.v.x * dt + data.a.x * dt * dt
    ensures r.p.y == data.p.y + data.v.y * dt + data.a.y * dt * dt
    ensures r.p.z == data.p.z + data.v.z * dt + data.a.z * dt * dt
  {
    var v' := Add(data.v, Scale(data.a, dt));
    data.(v := v', p := Add(data.p, Scale(v', dt)))
  }

  /** The position moves by exactly the updated velocity times `dt`. */
  lemma EulerUsesUpdatedVelocity(data: EulerData, dt: real)
    ensures Sub(Euler(data, dt).p, data.p) == Scale(Euler(data, dt).v, dt)
  {
  }

  /** Free fall from rest for one second: velocity and position both become (0,-9.8,0). */
  lemma EulerFreeFall()
    ensures var r := Euler(EulerData(Vec3(0.0, 0.0, 0.0), Vec3(0.0, 0.0, 0.0), Vec3(0.0, -9.8, 0.0)), 1.0);
            r.v == Vec3(0.0, -9.8, 0.0) && r.p == Vec3(0.0, -9.8, 0.0) && r.a == Vec3(0.0, -9.8, 0.0)
  {
  }
}
