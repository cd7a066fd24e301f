/**
 * fov_rho_1.py: the rhombus-mesh field of view again, step for step the algorithm of fov_trap.py
 * (ray pass, eight-octant sweep with the row : col - 1 shares, decay pass on the rays). Only its
 * comments and the name of the diagonal step differ, so its fov runs the passes of FovTrap.
 */
module FovRho1 {
  import opened MathUtil
  import opened Grids
  import Fov
  import FovTrap

  /**
   * fov: every cell of the result holds the TrapValue of its offset — 1 at the viewer, 0 beyond the
   * radius, the clamped ray value or received total less its decay elsewhere — and with opacities
   * in [0,1], a true square root, a positive radius and a decay percentage not below 0, every cell
   * lies in [0,1].
   */
  method FovRho1(viewer: IVec2, losRadius: int, vis: Map2D, decayPercent: real, sqrt: int -> real) returns (fovmap: Map2D)
    requires losRadius != 0 && vis.Valid() && vis.InBounds(viewer)
    ensures fresh(fovmap) && fovmap.Valid() && fovmap.width == vis.width && fovmap.height == vis.height
    ensures fovmap.Model().Get(viewer) == 1.0
    ensures forall p :: fovmap.Model().InBounds(p) ==>
      fovmap.Model().Get(p) == FovTrap.TrapValue(vis.Model(), viewer, losRadius, Fov.DecayFn(Fov.DecayPerTile(decayPercent, losRadius), sqrt), p)
    ensures UnitValued(vis.Model()) && IsSqrt(sqrt) && losRadius > 0 && decayPercent >= 0.0 ==> UnitValued(fovmap.Model())
  {
    fovmap := FovTrap.FovTrap(viewer, losRadius, vis, decayPercent, sqrt);
  }
}
